/**
 Canonical Huffman codes (section 3.2.2 of RFC 1951) for a list of code lengths, defined without any table.
 A number `v` stands for the bits to come, the next one lowest; Rev(v, s) is the code that the next s bits spell.
 */
module HuffmanCodes {
  import opened BitReversal
  import opened Powers

  const MAXBITS: nat := 15
  const FAST_BITS: nat := 9

  /** How many of the first n symbols have length `s`. */
  function CountIn(lens: seq<nat>, s: nat, n: nat): (c: nat)
    requires n <= |lens|
    ensures c <= n
  {
    if n == 0 then 0 else CountIn(lens, s, n - 1) + if lens[n - 1] == s then 1 else 0
  }

  /** Symbols of length `s`; length 0 means the symbol is not used. */
  function Count(lens: seq<nat>, s: nat): nat {
    if s == 0 then 0 else CountIn(lens, s, |lens|)
  }

  /** The first code of length `s`. */
  function FirstCode(lens: seq<nat>, s: nat): nat {
    if s == 0 then 0 else 2 * EndCode(lens, s - 1)
  }

  /** One past the last code of length `s`. */
  function EndCode(lens: seq<nat>, s: nat): nat {
    if s == 0 then 0 else 2 * EndCode(lens, s - 1) + Count(lens, s)
  }

  /** Symbols in use with a length below `s`. */
  function FirstSymbol(lens: seq<nat>, s: nat): nat {
    if s <= 1 then 0 else FirstSymbol(lens, s - 1) + Count(lens, s - 1)
  }

  /** Codes of one length go to its symbols in increasing order. */
  function Code(lens: seq<nat>, i: nat): nat
    requires i < |lens|
  {
    FirstCode(lens, lens[i]) + CountIn(lens, lens[i], i)
  }

  /** How many of the bit strings of length `s` begin with a code of the first n symbols that is shorter. */
  function Taken(lens: seq<nat>, s: nat, n: nat): nat
    requires n <= |lens|
  {
    if n == 0 then 0
    else Taken(lens, s, n - 1) + if 0 < lens[n - 1] < s then Pow2(s - lens[n - 1]) else 0
  }

  /** One bit more doubles what is taken, and adds what the codes of the length before take. */
  lemma {:induction false} TakenStep(lens: seq<nat>, s: nat, n: nat)
    requires s > 0 && n <= |lens|
    ensures Taken(lens, s, n) == 2 * Taken(lens, s - 1, n) + if s == 1 then 0 else 2 * CountIn(lens, s - 1, n)
  {
    if n > 0 {
      TakenStep(lens, s, n - 1);
      var l := lens[n - 1];
      if 0 < l < s {
        assert Pow2(s - l) == 2 * Pow2(s - l - 1);
        assert Pow2(0) == 1;
      }
    }
  }

  lemma {:induction false} FirstIsTaken(lens: seq<nat>, s: nat)
    requires s > 0
    ensures FirstCode(lens, s) == Taken(lens, s, |lens|)
  {
    TakenStep(lens, s, |lens|);
    if s > 1 {
      FirstIsTaken(lens, s - 1);
    } else {
      NoneTaken(lens, |lens|);
    }
  }

  lemma {:induction false} NoneTaken(lens: seq<nat>, n: nat)
    requires n <= |lens|
    ensures Taken(lens, 0, n) == 0
  {
    if n > 0 {
      NoneTaken(lens, n - 1);
    }
  }

  /** The code is canonical: with all bit strings of a symbol's length in order, its code comes right behind those that
      shorter codes take, whatever symbols have them, and those of the same length that come before it. */
  lemma {:induction false} CodeIsCanonical(lens: seq<nat>, i: nat)
    requires i < |lens| && lens[i] > 0
    ensures Code(lens, i) == Taken(lens, lens[i], |lens|) + CountIn(lens, lens[i], i)
  {
    FirstIsTaken(lens, lens[i]);
  }

  predicate WellFormed(lens: seq<nat>) {
    |lens| <= 288 && forall i | 0 <= i < |lens| :: lens[i] <= MAXBITS
  }

  /** The bits to come start with the code of symbol i. */
  predicate Matches(lens: seq<nat>, i: nat, v: nat) {
    i < |lens| && lens[i] > 0 && Rev(v, lens[i]) == Code(lens, i)
  }

  /** The lists _ssfn__zbuild_huffman accepts: no length has more symbols or higher codes than fit in its bits. */
  predicate Accepted(lens: seq<nat>) {
    (forall s | 1 <= s <= MAXBITS :: Count(lens, s) <= Pow2(s)) &&
    (forall s | 1 <= s <= MAXBITS && Count(lens, s) > 0 :: EndCode(lens, s) <= Pow2(s))
  }

  lemma {:induction false} CountInMonotone(lens: seq<nat>, s: nat, i: nat, j: nat)
    requires i <= j <= |lens|
    ensures CountIn(lens, s, i) <= CountIn(lens, s, j)
    decreases j
  {
    if i < j {
      CountInMonotone(lens, s, i, j - 1);
    }
  }

  /** A symbol's code lies in the range of its length. */
  lemma {:induction false} CodeInRange(lens: seq<nat>, i: nat)
    requires i < |lens| && lens[i] > 0
    ensures FirstCode(lens, lens[i]) <= Code(lens, i) < EndCode(lens, lens[i])
  {
    CountInMonotone(lens, lens[i], i + 1, |lens|);
  }

  lemma {:induction false} SameLengthDistinct(lens: seq<nat>, i: nat, j: nat)
    requires i < j < |lens| && lens[i] == lens[j]
    ensures Code(lens, i) < Code(lens, j)
  {
    CountInMonotone(lens, lens[i], i + 1, j);
  }

  /** A reading below the first code of a length was below the end of the one before, and stays below. */
  lemma {:induction false} BelowStaysBelow(lens: seq<nat>, v: nat, s: nat, n: nat)
    requires s < n && Rev(v, s) < EndCode(lens, s)
    ensures Rev(v, n) < FirstCode(lens, n)
    decreases n
  {
    if s + 1 < n {
      BelowStaysBelow(lens, v, s, n - 1);
    }
  }

  /** The code is prefix-free: whatever bits come, at most one symbol matches. */
  lemma {:induction false} PrefixFree(lens: seq<nat>, i: nat, j: nat, v: nat)
    requires Matches(lens, i, v) && Matches(lens, j, v)
    ensures i == j
  {
    CodeInRange(lens, i);
    CodeInRange(lens, j);
    if lens[i] < lens[j] {
      BelowStaysBelow(lens, v, lens[i], lens[j]);
    } else if lens[j] < lens[i] {
      BelowStaysBelow(lens, v, lens[j], lens[i]);
    } else if i < j {
      SameLengthDistinct(lens, i, j);
    } else if j < i {
      SameLengthDistinct(lens, j, i);
    }
  }

  /** The r-th symbol of length s. */
  lemma {:induction false} NthSymbol(lens: seq<nat>, s: nat, r: nat, n: nat) returns (i: nat)
    requires n <= |lens| && r < CountIn(lens, s, n)
    ensures i < n && lens[i] == s && CountIn(lens, s, i) == r
    decreases n
  {
    if lens[n - 1] == s && CountIn(lens, s, n - 1) == r {
      i := n - 1;
    } else {
      i := NthSymbol(lens, s, r, n - 1);
    }
  }

  /** A reading of s bits below the end of its length means that some symbol of at most s bits matches. */
  lemma {:induction false} SomeMatch(lens: seq<nat>, v: nat, s: nat) returns (i: nat)
    requires Rev(v, s) < EndCode(lens, s)
    ensures Matches(lens, i, v) && lens[i] <= s
    decreases s
  {
    if Rev(v, s) >= FirstCode(lens, s) {
      i := NthSymbol(lens, s, Rev(v, s) - FirstCode(lens, s), |lens|);
    } else {
      i := SomeMatch(lens, v, s - 1);
    }
  }

  /** Ends fit in their bits at every length of an accepted list. */
  lemma {:induction false} EndsFit(lens: seq<nat>, s: nat)
    requires Accepted(lens) && s <= MAXBITS
    ensures EndCode(lens, s) <= Pow2(s)
    decreases s
  {
    if s > 0 {
      EndsFit(lens, s - 1);
    }
  }

  /** Symbols of different length or rank go to different places of the symbol table. */
  lemma {:induction false} PlacesGrow(lens: seq<nat>, s: nat, n: nat)
    requires 1 <= s < n
    ensures FirstSymbol(lens, s) + Count(lens, s) <= FirstSymbol(lens, n)
    decreases n
  {
    if s + 1 < n {
      PlacesGrow(lens, s, n - 1);
    }
  }

  /** The place of a symbol in the table sorted by code. */
  function PlaceOf(lens: seq<nat>, i: nat): nat
    requires i < |lens|
  {
    FirstSymbol(lens, lens[i]) + CountIn(lens, lens[i], i)
  }

  lemma {:induction false} PlacesDistinct(lens: seq<nat>, i: nat, j: nat)
    requires i < |lens| && j < |lens| && lens[i] > 0 && lens[j] > 0 && i != j
    ensures PlaceOf(lens, i) != PlaceOf(lens, j)
  {
    CountInMonotone(lens, lens[i], i + 1, |lens|);
    CountInMonotone(lens, lens[j], j + 1, |lens|);
    if lens[i] < lens[j] {
      PlacesGrow(lens, lens[i], lens[j]);
    } else if lens[j] < lens[i] {
      PlacesGrow(lens, lens[j], lens[i]);
    } else if i < j {
      CountInMonotone(lens, lens[i], i + 1, j);
    } else {
      CountInMonotone(lens, lens[i], j + 1, i);
    }
  }

  function CountUsed(lens: seq<nat>, s: nat, n: nat): nat
    requires n <= |lens|
  {
    if n == 0 then 0 else CountUsed(lens, s, n - 1) + if 0 < lens[n - 1] < s then 1 else 0
  }

  lemma {:induction false} UsedBound(lens: seq<nat>, s: nat, n: nat)
    requires n <= |lens|
    ensures CountUsed(lens, s, n) <= n
    decreases n
  {
    if n > 0 {
      UsedBound(lens, s, n - 1);
    }
  }

  lemma {:induction false} UsedStep(lens: seq<nat>, s: nat, n: nat)
    requires n <= |lens| && s >= 1
    ensures CountUsed(lens, s + 1, n) == CountUsed(lens, s, n) + CountIn(lens, s, n)
    decreases n
  {
    if n > 0 {
      UsedStep(lens, s, n - 1);
    }
  }

  lemma {:induction false} FirstSymbolCounts(lens: seq<nat>, s: nat)
    requires s >= 1
    ensures FirstSymbol(lens, s) == CountUsed(lens, s, |lens|)
    decreases s
  {
    if s > 1 {
      FirstSymbolCounts(lens, s - 1);
      UsedStep(lens, s - 1, |lens|);
    } else {
      NoneShorter(lens, |lens|);
    }
  }

  lemma {:induction false} NoneShorter(lens: seq<nat>, n: nat)
    requires n <= |lens|
    ensures CountUsed(lens, 1, n) == 0
    decreases n
  {
    if n > 0 {
      NoneShorter(lens, n - 1);
    }
  }

  /** The table of symbols never overflows. */
  lemma {:induction false} PlaceInRange(lens: seq<nat>, i: nat)
    requires i < |lens| && lens[i] > 0
    ensures PlaceOf(lens, i) < |lens|
  {
    CountInMonotone(lens, lens[i], i + 1, |lens|);
    FirstSymbolCounts(lens, lens[i] + 1);
    UsedBound(lens, lens[i] + 1, |lens|);
  }
}
