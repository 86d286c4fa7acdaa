/**
 Decoding with the Huffman tables: the bit buffer, the fast table, the slow path, and the copy of an earlier match.
 */
module Inflate {
  import opened BitReversal
  import opened Powers
  import opened HuffmanCodes
  import opened HuffmanTables
  import opened Modular
  import opened Options

  /** Bit q of the compressed stream: bytes in order, each lowest bit first. */
  function StreamBit(input: nat -> nat, q: nat): nat {
    Bit(input(q / 8), q % 8)
  }

  /** The code the s bits from bit `at` on spell, read one bit at a time, the first weighing most. */
  function StreamCode(input: nat -> nat, at: nat, s: nat): nat {
    if s == 0 then 0 else 2 * StreamCode(input, at, s - 1) + StreamBit(input, at + s - 1)
  }

  /** The stream goes on with the code of symbol i. */
  ghost predicate Spells(lens: seq<nat>, i: nat, input: nat -> nat, at: nat) {
    i < |lens| && lens[i] > 0 && StreamCode(input, at, lens[i]) == Code(lens, i)
  }

  function NthOf(lens: seq<nat>, s: nat, r: nat, n: nat): (i: nat)
    requires n <= |lens| && r < CountIn(lens, s, n)
    ensures i < n && lens[i] == s && CountIn(lens, s, i) == r
    decreases n
  {
    if lens[n - 1] == s && CountIn(lens, s, n - 1) == r then n - 1 else NthOf(lens, s, r, n - 1)
  }

  /** Canonical decoding one bit at a time (section 3.2.2 of RFC 1951): after s bits, is the code read so far one of
      the codes of that length?  Gives the symbol and the bits consumed. */
  ghost function BitByBit(lens: seq<nat>, input: nat -> nat, at: nat, s: nat): Option<(nat, nat)>
    decreases MAXBITS + 1 - s
  {
    if s > MAXBITS then None
    else
      var code := StreamCode(input, at, s);
      if s > 0 && FirstCode(lens, s) <= code < EndCode(lens, s)
      then Some((NthOf(lens, s, code - FirstCode(lens, s), |lens|), s))
      else BitByBit(lens, input, at, s + 1)
  }

  /** Bit-by-bit decoding finds the symbol whose code the stream spells, and nothing when there is none. */
  lemma {:induction false} BitByBitSpells(lens: seq<nat>, input: nat -> nat, at: nat, s: nat)
    requires WellFormed(lens)
    ensures match BitByBit(lens, input, at, s)
      case Some(r) => Spells(lens, r.0, input, at) && lens[r.0] == r.1 && r.1 >= s
      case None => forall i | 0 <= i < |lens| && lens[i] >= s :: !Spells(lens, i, input, at)
    decreases MAXBITS + 1 - s
  {
    if s <= MAXBITS {
      BitByBitSpells(lens, input, at, s + 1);
      forall i | 0 <= i < |lens| && lens[i] == s && Spells(lens, i, input, at)
        ensures s > 0 && FirstCode(lens, s) <= StreamCode(input, at, s) < EndCode(lens, s)
      {
        CodeInRange(lens, i);
      }
    }
  }

  // ---- The bit buffer ----

  lemma {:induction false} ShlBound(v: nat, n: nat)
    requires v < 256
    ensures Shl(v, n) + Pow2(n) <= Pow2(n + 8)
  {
    if n == 0 {
      Pow2Values();
    } else {
      ShlDouble(v, n - 1);
      ShlBound(v, n - 1);
    }
  }

  lemma {:induction false} ShrBound(v: nat, s: nat, n: nat)
    requires s <= n && v < Pow2(n)
    ensures Shr(v, s) < Pow2(n - s)
    decreases s
  {
    if s > 0 {
      ShrBound(v / 2, s - 1, n - 1);
    }
  }

  lemma {:induction false} BitInByte(input: nat -> nat, pos: nat, k: nat)
    requires k < 8
    ensures StreamBit(input, 8 * pos + k) == Bit(input(pos), k)
  {
  }

  class BitReader {
    const input: nat -> nat
    var pos: nat
    var numBits: nat
    var codeBuffer: nat

    /** The bit of the stream that comes next. */
    function At(): int
      reads this
    {
      8 * pos - numBits
    }

    /** The buffer holds the next numBits bits of the stream, and no others. */
    ghost predicate Valid()
      reads this
    {
      (forall i :: input(i) < 256) && numBits <= 32 && numBits <= 8 * pos && codeBuffer < Pow2(numBits) &&
      forall k | 0 <= k < numBits :: Bit(codeBuffer, k) == StreamBit(input, At() + k)
    }

    constructor (input: nat -> nat)
      requires forall i :: input(i) < 256
      ensures Valid() && this.input == input && At() == 0
    {
      this.input := input;
      pos, numBits, codeBuffer := 0, 0, 0;
    }

    /** _ssfn__fill_bits: whole bytes come in above the bits held, until more than 24 are held. */
    method FillBits()
      requires Valid() && numBits <= 24
      modifies this
      ensures Valid() && At() == old(At()) && 24 < numBits
    {
      hide Or, Shl, Bit, StreamBit, Pow2;
      var more := true;
      while more
        invariant Valid() && At() == old(At()) && (more ==> numBits <= 24) && (!more ==> 24 < numBits)
        decreases if more then 33 - numBits else 0
      {
        var byte := input(pos);
        AddByte(byte);
        codeBuffer := Or(codeBuffer, Shl(byte, numBits));
        pos := pos + 1;
        numBits := numBits + 8;
        more := numBits <= 24;
      }
    }

    lemma {:induction false} AddByte(byte: nat)
      requires Valid() && numBits <= 24 && byte == input(pos)
      ensures Or(codeBuffer, Shl(byte, numBits)) < Pow2(numBits + 8)
      ensures forall k | 0 <= k < numBits + 8 ::
        Bit(Or(codeBuffer, Shl(byte, numBits)), k) == StreamBit(input, At() + k)
    {
      hide Or, Shl, Bit, Pow2;
      ShlBound(byte, numBits);
      forall k | 0 <= k < numBits + 8
        ensures Bit(Or(codeBuffer, Shl(byte, numBits)), k) == StreamBit(input, At() + k)
      {
        OrBit(codeBuffer, Shl(byte, numBits), k);
        BitShl(byte, numBits, k);
        if k >= numBits {
          HighBits(codeBuffer, numBits, k);
          BitInByte(input, pos, k - numBits);
        }
      }
    }

    /** What the buffer spells is what the stream spells. */
    lemma {:induction false} BufferSpells(s: nat)
      requires Valid() && s <= numBits
      ensures Rev(codeBuffer, s) == StreamCode(input, At(), s)
      decreases s
    {
      if s > 0 {
        BufferSpells(s - 1);
      }
    }

    /** code_buffer >>= s and num_bits -= s. */
    method Consume(s: nat)
      requires Valid() && s <= numBits
      modifies this`codeBuffer, this`numBits
      ensures Valid() && At() == old(At()) + s && numBits == old(numBits) - s
    {
      hide Shr, Bit, StreamBit, Pow2;
      ShrBound(codeBuffer, s, numBits);
      forall k | 0 <= k < numBits - s
        ensures Bit(Shr(codeBuffer, s), k) == StreamBit(input, At() + s + k)
      {
        BitShr(codeBuffer, s, k);
      }
      codeBuffer := Shr(codeBuffer, s);
      numBits := numBits - s;
    }
  }

  /** Lengths the reading has passed: no code of those lengths is a match. */
  lemma {:induction false} NoShortMatch(lens: seq<nat>, v: nat, s: nat)
    requires forall i | 0 <= i < |lens| && lens[i] <= s :: !Matches(lens, i, v)
    ensures Rev(v, s) >= EndCode(lens, s)
  {
    if Rev(v, s) < EndCode(lens, s) {
      var i := SomeMatch(lens, v, s);
    }
  }

  /** The first length at which the reading falls below the end is the length of the match. */
  lemma {:induction false} FoundAt(lens: seq<nat>, v: nat, s: nat) returns (i: nat)
    requires s > 0 && Rev(v, s - 1) >= EndCode(lens, s - 1) && Rev(v, s) < EndCode(lens, s)
    ensures FirstCode(lens, s) <= Rev(v, s)
    ensures Matches(lens, i, v) && lens[i] == s &&
      PlaceOf(lens, i) == Rev(v, s) - FirstCode(lens, s) + FirstSymbol(lens, s)
  {
    i := NthSymbol(lens, s, Rev(v, s) - FirstCode(lens, s), |lens|);
  }

  /** A length passed over, above the one before: still no match. */
  lemma {:induction false} PassedOver(lens: seq<nat>, v: nat, s: nat, i: nat)
    requires Rev(v, s) >= EndCode(lens, s) && i < |lens| && lens[i] == s
    ensures !Matches(lens, i, v)
  {
    if s > 0 {
      CodeInRange(lens, i);
    }
  }

  /** Taking apart what `(s << 9) | i` put together. */
  lemma {:induction false} EntryParts(s: nat, i: nat, n: nat)
    requires i < Pow2(n)
    ensures Shr(Shl(s, n) + i, n) == s && Low(Shl(s, n) + i, n) == i
    decreases n
  {
    if n > 0 {
      ShlDouble(s, n - 1);
      EntryParts(s, i / 2, n - 1);
      assert (Shl(s, n) + i) / 2 == Shl(s, n - 1) + i / 2 && (Shl(s, n) + i) % 2 == i % 2;
    }
  }

  lemma {:induction false} Shl9(s: nat)
    ensures Shl(s, 9) == s * 512 && Pow2(9) == 512
  {
    Pow2Values();
    assert Shl(s, 9) == Shl(16 * s, 5) == Shl(512 * s, 0);
  }

  /** The symbol whose code the buffer starts with is the one bit-by-bit decoding finds. */
  lemma {:induction false} MatchIsBitByBit(r: BitReader, lens: seq<nat>, i: nat)
    requires r.Valid() && WellFormed(lens) && r.numBits >= MAXBITS && Matches(lens, i, r.codeBuffer)
    ensures BitByBit(lens, r.input, r.At(), 1) == Some((i, lens[i]))
  {
    r.BufferSpells(lens[i]);
    BitByBitSpells(lens, r.input, r.At(), 1);
    match BitByBit(lens, r.input, r.At(), 1)
    case Some(q) =>
      r.BufferSpells(lens[q.0]);
      PrefixFree(lens, i, q.0, r.codeBuffer);
    case None =>
  }

  lemma {:induction false} NoMatchIsBitByBit(r: BitReader, lens: seq<nat>)
    requires r.Valid() && WellFormed(lens) && r.numBits >= MAXBITS
    requires forall i | 0 <= i < |lens| :: !Matches(lens, i, r.codeBuffer)
    ensures BitByBit(lens, r.input, r.At(), 1) == None
  {
    BitByBitSpells(lens, r.input, r.At(), 1);
    match BitByBit(lens, r.input, r.At(), 1)
    case Some(q) =>
      r.BufferSpells(lens[q.0]);
      assert Matches(lens, q.0, r.codeBuffer);
    case None =>
  }

  /** What decoding gave and how far it moved: the same as canonical decoding one bit at a time. */
  ghost predicate DecodedAs(reference: Option<(nat, nat)>, symbol: int, moved: int) {
    match reference
    case Some(q) => symbol == q.0 && moved == q.1
    case None => symbol == -1 && moved == 0
  }

  /** The fast table's answer for the bits in hand: a symbol of at most nine bits, or none of those matches. */
  lemma {:induction false} FastAnswer(t: HuffmanTable, lens: seq<nat>, v: nat)
    requires t.Shaped() && WellFormed(lens) && t.FastFor(lens, |lens|)
    ensures Low(v, 9) < FAST_SIZE
    ensures t.fast[Low(v, 9)] != 0 ==>
      Matches(lens, Low(t.fast[Low(v, 9)], 9), v) && Shr(t.fast[Low(v, 9)], 9) == lens[Low(t.fast[Low(v, 9)], 9)]
    ensures t.fast[Low(v, 9)] == 0 ==> forall i | 0 <= i < |lens| && lens[i] <= FAST_BITS :: !Matches(lens, i, v)
  {
    hide Code, Rev, Low, Shr, Shl, Pow2;
    Shl9(0);
    var j := Low(v, 9);
    forall i | 0 <= i < |lens| && lens[i] <= FAST_BITS
      ensures Matches(lens, i, j) <==> Matches(lens, i, v)
    {
      RevLow(v, 9, lens[i]);
    }
    if t.fast[j] != 0 {
      var i :| 0 <= i < |lens| && lens[i] <= FAST_BITS && Matches(lens, i, j);
      Shl9(lens[i]);
      EntryParts(lens[i], i, 9);
    }
  }

  /** _ssfn__zhuffman_decode. */
  method Decode(r: BitReader, t: HuffmanTable, ghost lens: seq<nat>) returns (symbol: int)
    requires r.Valid() && t.Shaped() && t.Tables(lens)
    modifies r
    ensures r.Valid() && DecodedAs(BitByBit(lens, r.input, old(r.At()), 1), symbol, r.At() - old(r.At()))
  {
    hide r.Valid, HuffmanTable.FastFor, HuffmanTable.Sorted, HuffmanTable.Ranges, Accepted, Matches, Low, Shr, BitByBit;
    if r.numBits < 16 {
      r.FillBits();
    }
    FastAnswer(t, lens, r.codeBuffer);
    var b := t.fast[Low(r.codeBuffer, 9)];
    if b != 0 {
      MatchIsBitByBit(r, lens, Low(b, 9));
      var s := Shr(b, 9);
      WithinBuffer(lens, Low(b, 9), r.codeBuffer);
      r.Consume(s);
      return Low(b, 9);
    }
    symbol := DecodeSlow(r, t, lens);
  }

  lemma {:induction false} WithinBuffer(lens: seq<nat>, i: nat, v: nat)
    requires Matches(lens, i, v) && WellFormed(lens)
    ensures i < |lens| && lens[i] <= MAXBITS
  {
  }

  /** _ssfn__zhuffman_decode_slowpath: the first length from ten on at which the reading is below the end. */
  method DecodeSlow(r: BitReader, t: HuffmanTable, ghost lens: seq<nat>) returns (symbol: int)
    requires r.Valid() && t.Shaped() && t.Tables(lens) && r.numBits >= 16
    requires forall i | 0 <= i < |lens| && lens[i] <= FAST_BITS :: !Matches(lens, i, r.codeBuffer)
    modifies r
    ensures r.Valid() && DecodedAs(BitByBit(lens, r.input, old(r.At()), 1), symbol, r.At() - old(r.At()))
  {
    hide r.Valid, HuffmanTable.FastFor, HuffmanTable.Sorted, HuffmanTable.Ranges, Accepted, Matches, Shr, BitByBit,
      BitReverse, Rev, EndCode, FirstCode, Pow2;
    ghost var v := r.codeBuffer;
    var k := BitReverse(r.codeBuffer, 16);
    Reversed16(v);
    NoShortMatch(lens, v, FAST_BITS);
    var s := FAST_BITS + 1;
    while k >= t.maxCode[s]
      invariant FAST_BITS < s <= 16 && r.Valid() && unchanged(r)
      invariant forall i | 0 <= i < |lens| && lens[i] < s :: !Matches(lens, i, v)
      decreases 16 - s
    {
      Passed(t, lens, v, k, s);
      s := s + 1;
    }
    if s == 16 {
      NoMatchIsBitByBit(r, lens);
      return -1;
    }
    ghost var i := SlowEntry(t, lens, v, k, s);
    MatchIsBitByBit(r, lens, i);
    var b := Shr(k, 16 - s) - t.firstCode[s] + t.firstSymbol[s];
    r.Consume(s);
    symbol := t.value[b];
  }

  lemma {:induction false} Reversed16(v: nat)
    ensures BitReverse(v, 16) == Rev(v, 16) < 0x1_0000
  {
    hide BitReverse, Rev, Pow2;
    BitReverseCorrect(v, 16);
    Pow2Values();
  }

  /** Where the slow path stops, the place it computes in the symbol table holds the symbol that matches. */
  lemma {:induction false} SlowEntry(t: HuffmanTable, lens: seq<nat>, v: nat, k: nat, s: nat) returns (i: nat)
    requires t.Shaped() && WellFormed(lens) && t.Ranges(lens, MAXBITS) && t.Sorted(lens, |lens|)
    requires k == Rev(v, 16) && FAST_BITS < s < 16 && k < t.maxCode[s]
    requires forall i | 0 <= i < |lens| && lens[i] < s :: !Matches(lens, i, v)
    ensures Matches(lens, i, v) && lens[i] == s
    ensures 0 <= Shr(k, 16 - s) - t.firstCode[s] + t.firstSymbol[s] < 288
    ensures t.value[Shr(k, 16 - s) - t.firstCode[s] + t.firstSymbol[s]] == i
  {
    hide Matches, EndCode, FirstCode, Rev, Shr, Shl, Pow2, FirstSymbol, PlaceOf;
    RevShorter(v, s, 16);
    ShiftCompare(k, EndCode(lens, s), 16 - s);
    NoShortMatch(lens, v, s - 1);
    i := FoundAt(lens, v, s);
  }

  lemma {:induction false} Passed(t: HuffmanTable, lens: seq<nat>, v: nat, k: nat, s: nat)
    requires t.Shaped() && t.Ranges(lens, MAXBITS) && t.maxCode[16] == 0x1_0000 && FAST_BITS < s <= 16
    requires k == Rev(v, 16) < 0x1_0000 && k >= t.maxCode[s]
    requires forall i | 0 <= i < |lens| && lens[i] < s :: !Matches(lens, i, v)
    ensures s < 16 && Rev(v, s) >= EndCode(lens, s)
    ensures forall i | 0 <= i < |lens| && lens[i] < s + 1 :: !Matches(lens, i, v)
  {
    hide Matches, EndCode, FirstCode, FirstSymbol, Rev, Shr, Shl, Pow2;
    RevShorter(v, s, 16);
    ShiftCompare(k, EndCode(lens, s), 16 - s);
    forall i | 0 <= i < |lens| && lens[i] == s
      ensures !Matches(lens, i, v)
    {
      PassedOver(lens, v, s, i);
    }
  }

  /** `more` repeats the last `dist` bytes of the output over and over. */
  ghost predicate Repeats(output: seq<nat>, dist: nat, more: seq<nat>)
    requires 0 < dist <= |output|
  {
    forall k | 0 <= k < |more| :: more[k] == output[|output| - dist + k % dist]
  }

  /** The copy of an earlier stretch of the output, which may run into what it writes; nothing when the distance goes
      back past the start. */
  method CopyMatch(output: seq<nat>, dist: nat, length: nat) returns (copied: Option<seq<nat>>)
    requires dist > 0
    ensures copied.None? <==> dist > |output|
    ensures copied.Some? ==> |copied.value| == |output| + length && output <= copied.value
    ensures copied.Some? ==> Repeats(output, dist, copied.value[|output|..])
  {
    if |output| < dist {
      return None;
    }
    var zout := output;
    var left := length;
    ghost var more: seq<nat> := [];
    hide Repeats;
    NoBytes(output, dist);
    if dist == 1 {
      var v := output[|output| - 1];
      while left > 0
        invariant 0 <= left <= length && |more| == length - left && zout == output + more && Repeats(output, dist, more)
      {
        NextByte(output, dist, more);
        zout := zout + [v];
        more := more + [v];
        left := left - 1;
      }
    } else {
      var p := |output| - dist;
      while left > 0
        invariant 0 <= left <= length && |more| == length - left && zout == output + more && Repeats(output, dist, more)
        invariant p == |output| - dist + |more|
      {
        NextByte(output, dist, more);
        more := more + [zout[p]];
        zout := zout + [zout[p]];
        p := p + 1;
        left := left - 1;
      }
    }
    assert zout[|output|..] == more;
    copied := Some(zout);
  }

  lemma {:induction false} NoBytes(output: seq<nat>, dist: nat)
    requires 0 < dist <= |output|
    ensures Repeats(output, dist, [])
  {
  }

  /** The byte `dist` places back is the next one. */
  lemma {:induction false} NextByte(output: seq<nat>, dist: nat, more: seq<nat>)
    requires 0 < dist <= |output| && Repeats(output, dist, more)
    ensures Repeats(output, dist, more + [(output + more)[|output| - dist + |more|]])
    ensures dist == 1 ==> (output + more)[|output| - dist + |more|] == output[|output| - 1]
  {
    Periodic(|more|, dist);
    if dist == 1 && |more| > 0 {
      assert (|more| - 1) % dist == 0;
    }
  }

  lemma {:induction false} Periodic(k: nat, d: nat)
    requires d > 0
    ensures k < d ==> k % d == k
    ensures k >= d ==> (k - d) % d == k % d
  {
    if k >= d {
      Wrap(k - d, d);
    } else {
      Small(k, d);
    }
  }
}
