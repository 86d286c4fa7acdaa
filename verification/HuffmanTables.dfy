/**
 The decoding tables of the inflate code: how _ssfn__zbuild_huffman fills them, and what they then hold.
 */
module HuffmanTables {
  import opened BitReversal
  import opened Powers
  import opened HuffmanCodes

  const FAST_SIZE: nat := 512

  lemma {:induction false} LowAdd(j: nat, s: nat)
    ensures Low(j + Pow2(s), s) == Low(j, s)
    decreases s
  {
    if s > 0 {
      assert (j + Pow2(s)) / 2 == j / 2 + Pow2(s - 1) && (j + Pow2(s)) % 2 == j % 2;
      LowAdd(j / 2, s - 1);
    }
  }

  /** Numbers with the same low s bits lie 2^s apart. */
  lemma {:induction false} LowGap(a: nat, b: nat, s: nat)
    requires Low(a, s) == Low(b, s) && a <= b < a + Pow2(s)
    ensures a == b
    decreases s
  {
    if s > 0 {
      LowGap(a / 2, b / 2, s - 1);
    }
  }

  class HuffmanTable {
    const fast: array<nat>
    const firstCode: array<nat>
    const maxCode: array<nat>
    const firstSymbol: array<nat>
    const size: array<nat>
    const value: array<nat>

    ghost predicate Shaped() {
      fast.Length == FAST_SIZE && firstCode.Length == 16 && maxCode.Length == 17 && firstSymbol.Length == 16 &&
      size.Length == 288 && value.Length == 288 &&
      firstCode != maxCode && firstCode != firstSymbol && maxCode != firstSymbol &&
      fast != firstCode && fast != maxCode && fast != firstSymbol && size != value &&
      size != fast && size != firstCode && size != maxCode && size != firstSymbol &&
      value != fast && value != firstCode && value != maxCode && value != firstSymbol
    }

    constructor ()
      ensures Shaped() && fresh(fast) && fresh(firstCode) && fresh(maxCode) && fresh(firstSymbol) && fresh(size) &&
        fresh(value)
    {
      fast := new nat[FAST_SIZE];
      firstCode := new nat[16];
      maxCode := new nat[17];
      firstSymbol := new nat[16];
      size := new nat[288];
      value := new nat[288];
    }

    /** The entries for lengths 1 to n. */
    ghost predicate Ranges(lens: seq<nat>, n: nat)
      requires Shaped() && n <= MAXBITS
      reads firstCode, maxCode, firstSymbol
    {
      forall s | 1 <= s <= n ::
        firstCode[s] == FirstCode(lens, s) && maxCode[s] == Shl(EndCode(lens, s), 16 - s) &&
        firstSymbol[s] == FirstSymbol(lens, s)
    }

    /** The first n symbols stand at their places, sorted by code. */
    ghost predicate Sorted(lens: seq<nat>, n: nat)
      requires Shaped() && n <= |lens| <= 288
      reads size, value
    {
      forall i | 0 <= i < n && lens[i] > 0 ::
        PlaceOf(lens, i) < 288 && value[PlaceOf(lens, i)] == i && size[PlaceOf(lens, i)] == lens[i]
    }

    /** Indexed by the next nine bits, the fast table names the symbol of at most nine bits that they start with. */
    ghost predicate FastFor(lens: seq<nat>, n: nat)
      requires Shaped() && n <= |lens|
      reads fast
    {
      (forall i, j | 0 <= i < n && 0 <= j < FAST_SIZE && lens[i] <= FAST_BITS && Matches(lens, i, j) ::
        fast[j] == lens[i] * 512 + i) &&
      (forall j | 0 <= j < FAST_SIZE && fast[j] != 0 ::
        exists i :: 0 <= i < n && lens[i] <= FAST_BITS && Matches(lens, i, j))
    }

    ghost predicate Tables(lens: seq<nat>)
      requires Shaped()
      reads fast, firstCode, maxCode, firstSymbol, size, value
    {
      WellFormed(lens) && Accepted(lens) && Ranges(lens, MAXBITS) && maxCode[16] == 0x1_0000 &&
      Sorted(lens, |lens|) && FastFor(lens, |lens|)
    }

    /** The first loop: how many symbols have each length, length 0 left out. */
    method CountSizes(lens: seq<nat>) returns (sizes: array<nat>)
      requires WellFormed(lens)
      ensures fresh(sizes) && sizes.Length == 17 && forall s | 0 <= s <= MAXBITS :: sizes[s] == Count(lens, s)
    {
      sizes := new nat[17](_ => 0);
      for i := 0 to |lens|
        invariant forall s | 0 <= s <= MAXBITS :: sizes[s] == CountIn(lens, s, i)
      {
        sizes[lens[i]] := sizes[lens[i]] + 1;
      }
      sizes[0] := 0;
    }

    /** The second loop: reject counts that cannot be. */
    method CountsFit(lens: seq<nat>, sizes: array<nat>) returns (ok: bool)
      requires sizes.Length == 17 && forall s | 0 <= s <= MAXBITS :: sizes[s] == Count(lens, s)
      ensures ok <==> forall s | 1 <= s <= MAXBITS :: Count(lens, s) <= Pow2(s)
    {
      for i := 1 to 16
        invariant forall s | 1 <= s < i :: Count(lens, s) <= Pow2(s)
      {
        if sizes[i] > Pow2(i) {
          return false;
        }
      }
      ok := true;
    }

    /** The third loop: lay out the code ranges length by length, unless some code does not fit. */
    method LayOut(lens: seq<nat>, sizes: array<nat>, nextCode: array<nat>) returns (ok: bool)
      requires Shaped() && sizes.Length == 17 && forall s | 0 <= s <= MAXBITS :: sizes[s] == Count(lens, s)
      requires sizes != firstCode && sizes != maxCode && sizes != firstSymbol && sizes != nextCode
      requires nextCode.Length == 16 && nextCode != firstCode && nextCode != firstSymbol && nextCode != maxCode
      modifies firstCode, maxCode, firstSymbol, nextCode
      ensures ok <==> forall s | 1 <= s <= MAXBITS && Count(lens, s) > 0 :: EndCode(lens, s) <= Pow2(s)
      ensures ok ==> Ranges(lens, MAXBITS) && maxCode[16] == 0x1_0000
      ensures ok ==> forall s | 1 <= s <= MAXBITS :: nextCode[s] == FirstCode(lens, s)
    {
      hide Shl, Pow2, EndCode, FirstCode, FirstSymbol, Count;
      RangeSteps(lens, 0);
      var code, k := 0, 0;
      for i := 1 to 16
        invariant code == FirstCode(lens, i) && k == FirstSymbol(lens, i)
        invariant forall s | 0 <= s <= MAXBITS :: sizes[s] == Count(lens, s)
        invariant forall s | 1 <= s < i && Count(lens, s) > 0 :: EndCode(lens, s) <= Pow2(s)
        invariant Ranges(lens, i - 1)
        invariant forall s | 1 <= s < i :: nextCode[s] == FirstCode(lens, s)
      {
        RangeSteps(lens, i);
        nextCode[i] := code;
        firstCode[i] := code;
        firstSymbol[i] := k;
        code := code + sizes[i];
        assert code == EndCode(lens, i) && sizes[i] == Count(lens, i);
        if sizes[i] > 0 && code - 1 >= Pow2(i) {
          return false;
        }
        maxCode[i] := Shl(code, 16 - i);
        code := code * 2;
        k := k + sizes[i];
      }
      maxCode[16] := 0x1_0000;
      ok := true;
    }

    /** The innermost loop: every nine-bit index whose low bits spell the code. */
    method FillFast(s: nat, code: nat, entry: nat)
      requires Shaped() && 1 <= s <= FAST_BITS && code < Pow2(s)
      modifies fast
      ensures forall j | 0 <= j < FAST_SIZE :: fast[j] == if Rev(j, s) == code then entry else old(fast[j])
    {
      BitReverseCorrect(code, s);
      ghost var bits := Rev(code, s);
      var j := BitReverse(code, s);
      FirstHit(bits, s);
      hide Low, Rev, Pow2, BitReverse;
      while j < FAST_SIZE
        invariant Low(j, s) == bits
        invariant forall i | 0 <= i < FAST_SIZE :: fast[i] == if i < j && Low(i, s) == bits then entry else old(fast[i])
        decreases FAST_SIZE - j
      {
        fast[j] := entry;
        NextHit(j, s);
        j := j + Pow2(s);
      }
      SpelledAll(code, s);
    }

    /** The body of the last loop: symbol i goes to its place, and into the fast table if its code is short. */
    method EnterSymbol(lens: seq<nat>, i: nat, code: nat)
      requires Shaped() && WellFormed(lens) && Accepted(lens) && i < |lens| && lens[i] > 0 && code == Code(lens, i)
      requires Ranges(lens, MAXBITS) && Sorted(lens, i) && FastFor(lens, i)
      modifies fast, size, value
      ensures Sorted(lens, i + 1) && FastFor(lens, i + 1)
    {
      hide Accepted, EndCode, FirstCode, FirstSymbol, CountIn, Rev, Pow2;
      ghost var before := fast[..];
      var s := lens[i];
      var c := code - firstCode[s] + firstSymbol[s];
      assert c == PlaceOf(lens, i);
      PlaceInRange(lens, i);
      CodeFits(lens, i);
      PlacesApart(lens, i);
      size[c] := s;
      value[c] := i;
      if s <= FAST_BITS {
        FillFast(s, code, s * 512 + i);
        FastEntry(lens, i, before, fast[..]);
        forall j | 0 <= j < FAST_SIZE && fast[j] != 0
          ensures exists k :: 0 <= k < i + 1 && lens[k] <= FAST_BITS && Matches(lens, k, j)
        {
          if Rev(j, s) == code {
            assert Matches(lens, i, j);
          } else {
            assert before[j] != 0;
          }
        }
      }
    }

    /** The last loop. */
    method EnterSymbols(lens: seq<nat>, nextCode: array<nat>)
      requires Shaped() && WellFormed(lens) && Accepted(lens) && Ranges(lens, MAXBITS)
      requires nextCode.Length == 16 && nextCode != firstCode && nextCode != firstSymbol && nextCode != maxCode
      requires nextCode != fast && nextCode != size && nextCode != value
      requires forall s | 1 <= s <= MAXBITS :: nextCode[s] == FirstCode(lens, s)
      requires forall j | 0 <= j < FAST_SIZE :: fast[j] == 0
      modifies fast, size, value, nextCode
      ensures Sorted(lens, |lens|) && FastFor(lens, |lens|)
    {
      hide Accepted, FirstCode, PlaceOf, Rev;
      for i := 0 to |lens|
        invariant Ranges(lens, MAXBITS) && Sorted(lens, i) && FastFor(lens, i)
        invariant forall s | 1 <= s <= MAXBITS :: nextCode[s] == FirstCode(lens, s) + CountIn(lens, s, i)
      {
        var s := lens[i];
        if s > 0 {
          EnterSymbol(lens, i, nextCode[s]);
          nextCode[s] := nextCode[s] + 1;
        }
      }
    }

    /** _ssfn__zbuild_huffman. */
    method Build(lens: seq<nat>) returns (ok: bool)
      requires Shaped() && WellFormed(lens)
      modifies fast, firstCode, maxCode, firstSymbol, size, value
      ensures ok <==> Accepted(lens)
      ensures ok ==> Tables(lens)
    {
      hide FastFor, Sorted, Ranges;
      var sizes := CountSizes(lens);
      for j := 0 to FAST_SIZE
        invariant forall i | 0 <= i < j :: fast[i] == 0
        invariant forall s | 0 <= s <= MAXBITS :: sizes[s] == Count(lens, s)
      {
        fast[j] := 0;
      }
      ok := CountsFit(lens, sizes);
      if !ok {
        return;
      }
      var nextCode := new nat[16](_ => 0);
      ok := LayOut(lens, sizes, nextCode);
      if !ok {
        return;
      }
      EnterSymbols(lens, nextCode);
    }
  }

  /** Entering symbol i in the fast table spoils no entry: no index starts with two codes. */
  lemma {:induction false} FastEntry(lens: seq<nat>, i: nat, before: seq<nat>, after: seq<nat>)
    requires i < |lens| && |before| == |after| == FAST_SIZE && 1 <= lens[i] <= FAST_BITS
    requires forall j | 0 <= j < FAST_SIZE ::
      after[j] == if Rev(j, lens[i]) == Code(lens, i) then lens[i] * 512 + i else before[j]
    requires forall k, j | 0 <= k < i && 0 <= j < FAST_SIZE && lens[k] <= FAST_BITS && Matches(lens, k, j) ::
      before[j] == lens[k] * 512 + k
    ensures forall k, j | 0 <= k <= i && 0 <= j < FAST_SIZE && lens[k] <= FAST_BITS && Matches(lens, k, j) ::
      after[j] == lens[k] * 512 + k
  {
    forall k, j | 0 <= k <= i && 0 <= j < FAST_SIZE && lens[k] <= FAST_BITS && Matches(lens, k, j)
      ensures after[j] == lens[k] * 512 + k
    {
      if Matches(lens, i, j) {
        PrefixFree(lens, i, k, j);
      }
    }
  }

  lemma {:induction false} CodeFits(lens: seq<nat>, i: nat)
    requires Accepted(lens) && i < |lens| && 0 < lens[i] <= MAXBITS
    ensures Code(lens, i) < Pow2(lens[i])
  {
    CodeInRange(lens, i);
    EndsFit(lens, lens[i]);
  }

  lemma {:induction false} PlacesApart(lens: seq<nat>, i: nat)
    requires i < |lens| && lens[i] > 0
    ensures forall k | 0 <= k < i && lens[k] > 0 :: PlaceOf(lens, k) != PlaceOf(lens, i)
  {
    forall k | 0 <= k < i && lens[k] > 0
      ensures PlaceOf(lens, k) != PlaceOf(lens, i)
    {
      PlacesDistinct(lens, k, i);
    }
  }

  /** From one length to the next. */
  lemma {:induction false} RangeSteps(lens: seq<nat>, s: nat)
    ensures EndCode(lens, s) == FirstCode(lens, s) + Count(lens, s) && FirstCode(lens, s + 1) == 2 * EndCode(lens, s)
    ensures FirstSymbol(lens, s + 1) == FirstSymbol(lens, s) + Count(lens, s)
    ensures s == 0 ==> FirstCode(lens, 1) == 0 && FirstSymbol(lens, 1) == 0
  {
  }

  lemma {:induction false} FirstHit(bits: nat, s: nat)
    requires bits < Pow2(s)
    ensures Low(bits, s) == bits && forall i: nat | i < bits :: Low(i, s) != bits
  {
    LowSmall(bits, s);
    forall i: nat | i < bits
      ensures Low(i, s) != bits
    {
      LowSmall(i, s);
    }
  }

  lemma {:induction false} NextHit(j: nat, s: nat)
    ensures Low(j + Pow2(s), s) == Low(j, s) && forall i: nat | j < i < j + Pow2(s) :: Low(i, s) != Low(j, s)
  {
    LowAdd(j, s);
    forall i: nat | j < i < j + Pow2(s)
      ensures Low(i, s) != Low(j, s)
    {
      if Low(i, s) == Low(j, s) {
        LowGap(j, i, s);
      }
    }
  }

  lemma {:induction false} SpelledAll(code: nat, s: nat)
    requires code < Pow2(s)
    ensures forall j: nat :: Low(j, s) == Rev(code, s) <==> Rev(j, s) == code
  {
    forall j: nat
      ensures Low(j, s) == Rev(code, s) <==> Rev(j, s) == code
    {
      RevInverse(j, code, s);
    }
  }
}
