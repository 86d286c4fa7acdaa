/**
 The other way round: writing a block of literals and matches as bits, and what decoding makes of it.
 */
module BlockEncoding {
  import opened BitReversal
  import opened HuffmanCodes
  import opened HuffmanTables
  import opened Inflate
  import opened InflateBlocks
  import opened Modular
  import opened Options
  import opened Powers

  // ---- The lengths and distances the tables stand for ----

  /** The ranges of the length symbols lie end to end from 3 to 258, and the last symbol stands for 258 alone.  From the
      ninth symbol on, four at a time have one more extra bit. */
  lemma {:induction false} LengthsTile(z: nat)
    requires z < 28
    ensures LengthBase(0) == 3 && LengthBase(27) + Pow2(LengthExtra(27)) == 259
    ensures LengthBase(28) == 258 && LengthExtra(28) == 0
    ensures z < 27 ==> LengthBase(z + 1) == LengthBase(z) + Pow2(LengthExtra(z))
    ensures LengthExtra(z) == if z < 8 then 0 else z / 4 - 1
  {
    SmallPowers();
  }

  /** The ranges of the distance symbols lie end to end from 1 to 32768.  From the fifth symbol on, two at a time have
      one more extra bit. */
  lemma {:induction false} DistancesTile(z: nat)
    requires z < 30
    ensures DistBase(0) == 1 && DistBase(29) + Pow2(DistExtra(29)) == 32769
    ensures z < 29 ==> DistBase(z + 1) == DistBase(z) + Pow2(DistExtra(z))
    ensures DistExtra(z) == if z < 4 then 0 else z / 2 - 1
  {
    SmallPowers();
  }

  lemma {:induction false} SmallPowers()
    ensures Pow2(0) == 1 && Pow2(1) == 2 && Pow2(2) == 4 && Pow2(3) == 8 && Pow2(4) == 16 && Pow2(5) == 32
    ensures Pow2(6) == 64 && Pow2(7) == 128 && Pow2(8) == 256 && Pow2(9) == 512 && Pow2(10) == 1024
    ensures Pow2(11) == 2048 && Pow2(12) == 4096 && Pow2(13) == 8192
  {
    assert Pow2(1) == 2 * Pow2(0) && Pow2(2) == 2 * Pow2(1) && Pow2(3) == 2 * Pow2(2) && Pow2(4) == 2 * Pow2(3);
    assert Pow2(5) == 2 * Pow2(4) && Pow2(6) == 2 * Pow2(5) && Pow2(7) == 2 * Pow2(6) && Pow2(8) == 2 * Pow2(7);
    assert Pow2(9) == 2 * Pow2(8) && Pow2(10) == 2 * Pow2(9) && Pow2(11) == 2 * Pow2(10);
    assert Pow2(12) == 2 * Pow2(11) && Pow2(13) == 2 * Pow2(12);
  }

  /** The symbol for a length, of the first z + 1: the last whose range has begun. */
  function LengthSymbol(length: nat, z: nat): (r: nat)
    requires z <= 28
    ensures r <= z && (length >= 3 ==> LengthBase(r) <= length)
  {
    if z == 0 || LengthBase(z) <= length then z else LengthSymbol(length, z - 1)
  }

  function DistSymbol(dist: nat, z: nat): (r: nat)
    requires z <= 29
    ensures r <= z && (dist >= 1 ==> DistBase(r) <= dist)
  {
    if z == 0 || DistBase(z) <= dist then z else DistSymbol(dist, z - 1)
  }

  /** Every length has a symbol, and lies in its range. */
  lemma {:induction false} LengthFits(length: nat, z: nat)
    requires 3 <= length <= 258 && z <= 28 && (z < 28 ==> length < LengthBase(z) + Pow2(LengthExtra(z)))
    ensures var r := LengthSymbol(length, z); LengthBase(r) <= length < LengthBase(r) + Pow2(LengthExtra(r))
  {
    hide LengthBase, LengthExtra;
    LengthsTile(if z == 0 then 0 else z - 1);
    SmallPowers();
    if z > 0 && length < LengthBase(z) {
      LengthFits(length, z - 1);
    }
  }

  lemma {:induction false} DistFits(dist: nat, z: nat)
    requires 1 <= dist <= 32768 && z <= 29 && dist < DistBase(z) + Pow2(DistExtra(z))
    ensures var r := DistSymbol(dist, z); DistBase(r) <= dist < DistBase(r) + Pow2(DistExtra(r))
  {
    hide DistBase, DistExtra;
    DistancesTile(if z == 0 then 0 else z - 1);
    if z > 0 && dist < DistBase(z) {
      DistFits(dist, z - 1);
    }
  }

  // ---- Bits ----

  type Bits = seq<nat>

  /** The low n bits of v, the highest first, as Huffman codes are written. */
  function HighFirst(v: nat, n: nat): (b: Bits)
    ensures |b| == n
    decreases n
  {
    if n == 0 then [] else HighFirst(v / 2, n - 1) + [v % 2]
  }

  /** The low n bits of v, the lowest first, as extra bits are written. */
  function LowFirst(v: nat, n: nat): (b: Bits)
    ensures |b| == n
    decreases n
  {
    if n == 0 then [] else [v % 2] + LowFirst(v / 2, n - 1)
  }

  /** The stream goes on with these bits. */
  ghost predicate Carries(input: nat -> nat, at: nat, bits: Bits) {
    forall k | 0 <= k < |bits| :: StreamBit(input, at + k) == bits[k]
  }

  lemma {:induction false} CarriesParts(input: nat -> nat, at: nat, a: Bits, b: Bits)
    requires Carries(input, at, a + b)
    ensures Carries(input, at, a) && Carries(input, at + |a|, b)
  {
    forall k | 0 <= k < |a|
      ensures StreamBit(input, at + k) == a[k]
    {
      assert (a + b)[k] == a[k];
    }
    forall k | 0 <= k < |b|
      ensures StreamBit(input, at + |a| + k) == b[k]
    {
      assert (a + b)[|a| + k] == b[k];
      assert StreamBit(input, at + (|a| + k)) == b[k];
    }
  }

  lemma {:induction false} CarriesFour(input: nat -> nat, at: nat, a: Bits, b: Bits, c: Bits, d: Bits)
    requires Carries(input, at, a + (b + (c + d)))
    ensures Carries(input, at, a) && Carries(input, at + |a|, b) && Carries(input, at + |a| + |b|, c)
    ensures Carries(input, at + |a| + |b| + |c|, d) && |a + (b + (c + d))| == |a| + |b| + |c| + |d|
  {
    hide Carries;
    CarriesParts(input, at, a, b + (c + d));
    CarriesParts(input, at + |a|, b, c + d);
    CarriesParts(input, at + |a| + |b|, c, d);
  }

  lemma {:induction false} ReadsCode(input: nat -> nat, at: nat, v: nat, n: nat)
    requires Carries(input, at, HighFirst(v, n)) && v < Pow2(n)
    ensures StreamCode(input, at, n) == v
    decreases n
  {
    hide StreamBit;
    if n > 0 {
      CarriesParts(input, at, HighFirst(v / 2, n - 1), [v % 2]);
      assert [v % 2][0] == v % 2;
      ReadsCode(input, at, v / 2, n - 1);
    }
  }

  lemma {:induction false} ReadsNumber(input: nat -> nat, at: nat, v: nat, n: nat)
    requires Carries(input, at, LowFirst(v, n)) && v < Pow2(n)
    ensures Number(input, at, n) == v
    decreases n
  {
    hide StreamBit;
    if n > 0 {
      CarriesParts(input, at, [v % 2], LowFirst(v / 2, n - 1));
      assert [v % 2][0] == v % 2;
      ReadsNumber(input, at + 1, v / 2, n - 1);
    }
  }

  /** The next bits, as the number whose readings are the codes they spell. */
  lemma {:induction false} NextBits(input: nat -> nat, at: nat, n: nat)
    ensures forall k | 0 <= k < n :: Bit(Number(input, at, n), k) == StreamBit(input, at + k)
    decreases n
  {
    hide StreamBit;
    if n > 0 {
      NextBits(input, at + 1, n - 1);
      var v := Number(input, at, n);
      assert StreamBit(input, at) <= 1 by {
        StreamBitSmall(input, at);
      }
      assert v % 2 == StreamBit(input, at) && v / 2 == Number(input, at + 1, n - 1);
      forall k | 1 <= k < n
        ensures Bit(v, k) == StreamBit(input, at + k)
      {
        assert Bit(v, k) == Bit(v / 2, k - 1) == StreamBit(input, at + 1 + (k - 1));
      }
    }
  }

  lemma {:induction false} StreamBitSmall(input: nat -> nat, at: nat)
    ensures StreamBit(input, at) <= 1
  {
  }

  lemma {:induction false} ReadingIsCode(v: nat, input: nat -> nat, at: nat, n: nat, s: nat)
    requires s <= n && forall k | 0 <= k < n :: Bit(v, k) == StreamBit(input, at + k)
    ensures Rev(v, s) == StreamCode(input, at, s)
    decreases s
  {
    hide StreamBit, Bit;
    if s > 0 {
      ReadingIsCode(v, input, at, n, s - 1);
      assert Bit(v, s - 1) == StreamBit(input, at + (s - 1));
    }
  }

  /** Where the stream spells a symbol, decoding gives that symbol. */
  lemma {:induction false} SpelledIsDecoded(lens: seq<nat>, input: nat -> nat, at: nat, i: nat)
    requires WellFormed(lens) && Spells(lens, i, input, at)
    ensures BitByBit(lens, input, at, 1) == Some((i, lens[i]))
  {
    hide StreamCode, Code, Bit, Rev, Number;
    var v := Number(input, at, MAXBITS);
    NextBits(input, at, MAXBITS);
    BitByBitSpells(lens, input, at, 1);
    ReadingIsCode(v, input, at, MAXBITS, lens[i]);
    match BitByBit(lens, input, at, 1)
    case Some(q) =>
      ReadingIsCode(v, input, at, MAXBITS, lens[q.0]);
      PrefixFree(lens, i, q.0, v);
    case None =>
  }

  /** The code of a symbol, as it is written. */
  function CodeBits(lens: seq<nat>, i: nat): Bits
    requires i < |lens|
  {
    HighFirst(Code(lens, i), lens[i])
  }

  lemma {:induction false} WrittenIsDecoded(lens: seq<nat>, input: nat -> nat, at: nat, i: nat)
    requires WellFormed(lens) && Accepted(lens) && i < |lens| && lens[i] > 0 && Carries(input, at, CodeBits(lens, i))
    ensures BitByBit(lens, input, at, 1) == Some((i, lens[i])) && |CodeBits(lens, i)| == lens[i]
  {
    hide StreamCode, FirstCode, EndCode, Count;
    CodeInRange(lens, i);
    CountsOne(lens, i);
    assert EndCode(lens, lens[i]) <= Pow2(lens[i]);
    ReadsCode(input, at, Code(lens, i), lens[i]);
    SpelledIsDecoded(lens, input, at, i);
  }

  lemma {:induction false} CountsOne(lens: seq<nat>, i: nat)
    requires i < |lens| && lens[i] > 0
    ensures Count(lens, lens[i]) > 0
  {
    CountInMonotone(lens, lens[i], i + 1, |lens|);
  }

  // ---- Blocks ----

  /** What a block is made of: bytes, and copies of earlier output. */
  datatype Item = Literal(byte: nat) | Copy(length: nat, dist: nat)

  /** The item can be written with these codes when n bytes are out. */
  predicate Writable(lens: seq<nat>, dlens: seq<nat>, item: Item, n: nat)
    requires |lens| == 288 && |dlens| == 32
  {
    match item
    case Literal(b) => b < 256 && lens[b] > 0
    case Copy(l, d) =>
      3 <= l <= 258 && 1 <= d <= 32768 && d <= n &&
      lens[257 + LengthSymbol(l, 28)] > 0 && dlens[DistSymbol(d, 29)] > 0
  }

  /** A copy, byte by byte: each is the one `dist` places back in what is out by then. */
  function CopyBytes(output: seq<nat>, dist: nat, length: nat): seq<nat>
    requires 0 < dist <= |output|
    decreases length
  {
    if length == 0 then output else CopyBytes(output + [output[|output| - dist]], dist, length - 1)
  }

  function Expand(output: seq<nat>, item: Item): seq<nat>
    requires item.Copy? ==> 0 < item.dist <= |output|
  {
    match item
    case Literal(b) => output + [b]
    case Copy(l, d) => CopyBytes(output, d, l)
  }

  /** Section 3.2.5 of RFC 1951: a literal's code, or the codes of the length and of the distance, each with the extra
      bits that tell how far into its range it is. */
  function ItemBits(lens: seq<nat>, dlens: seq<nat>, item: Item, n: nat): Bits
    requires |lens| == 288 && |dlens| == 32 && Writable(lens, dlens, item, n)
  {
    match item
    case Literal(b) => CodeBits(lens, b)
    case Copy(l, d) =>
      var z, y := LengthSymbol(l, 28), DistSymbol(d, 29);
      CodeBits(lens, 257 + z) + (LowFirst(l - LengthBase(z), LengthExtra(z)) +
        (CodeBits(dlens, y) + LowFirst(d - DistBase(y), DistExtra(y))))
  }

  lemma {:induction false} CopyRepeats(output: seq<nat>, dist: nat, length: nat)
    requires 0 < dist <= |output|
    ensures CopyBytes(output, dist, length) == output + Repeated(output, dist, length)
    decreases length
  {
    hide Repeated;
    if length == 0 {
      assert output + Repeated(output, dist, 0) == output by {
        RepeatedSize(output, dist, 0);
      }
    } else {
      var next := output[|output| - dist];
      CopyRepeats(output + [next], dist, length - 1);
      RepeatedStep(output, dist, length);
      assert output + [next] + Repeated(output + [next], dist, length - 1) ==
        output + ([next] + Repeated(output + [next], dist, length - 1));
    }
  }

  lemma {:induction false} RepeatedSize(output: seq<nat>, dist: nat, length: nat)
    requires 0 < dist <= |output|
    ensures |Repeated(output, dist, length)| == length
  {
  }

  lemma {:induction false} RepeatedStep(output: seq<nat>, dist: nat, length: nat)
    requires 0 < dist <= |output| && length > 0
    ensures var next := output[|output| - dist];
      Repeated(output, dist, length) == [next] + Repeated(output + [next], dist, length - 1)
  {
    var next := output[|output| - dist];
    Small(0, dist);
    var rest := Repeated(output + [next], dist, length - 1);
    forall k | 0 <= k < |rest|
      ensures rest[k] == Repeated(output, dist, length)[k + 1]
    {
      NextPlace(k, dist);
    }
  }

  lemma {:induction false} NextPlace(k: nat, d: nat)
    requires d > 0
    ensures k % d < d && (k + 1) % d == if k % d == d - 1 then 0 else k % d + 1
  {
    var q, r := k / d, k % d;
    assert k == q * d + r;
    if r == d - 1 {
      Successor(q, d);
      Quotient(k + 1, d, q + 1, 0);
    } else {
      Quotient(k + 1, d, q, r + 1);
    }
  }

  /** The codes of both kinds, as a block has them. */
  predicate Codes(lens: seq<nat>, dlens: seq<nat>) {
    |lens| == 288 && |dlens| == 32 && WellFormed(lens) && Accepted(lens) && WellFormed(dlens) && Accepted(dlens)
  }

  /** The bits of a match are decoded to its length and distance. */
  lemma {:induction false} MatchIsDecoded(lens: seq<nat>, dlens: seq<nat>, input: nat -> nat, at: nat, item: Item,
      n: nat)
    requires Codes(lens, dlens) && item.Copy? && Writable(lens, dlens, item, n)
    requires Carries(input, at, ItemBits(lens, dlens, item, n))
    ensures var s := 257 + LengthSymbol(item.length, 28);
      BitByBit(lens, input, at, 1) == Some((s, lens[s])) &&
      MatchAt(dlens, input, at + lens[s], s - 257) ==
        Some((item.length, item.dist, at + |ItemBits(lens, dlens, item, n)|))
  {
    hide Accepted, WellFormed, Carries, BitByBit, Number, CodeBits, LowFirst, LengthBase, LengthExtra, DistBase,
      DistExtra, MatchAt;
    var z, y := LengthSymbol(item.length, 28), DistSymbol(item.dist, 29);
    var l, d := item.length - LengthBase(z), item.dist - DistBase(y);
    MatchFits(item.length, item.dist);
    var c, e := CodeBits(lens, 257 + z), LowFirst(l, LengthExtra(z));
    var c', e' := CodeBits(dlens, y), LowFirst(d, DistExtra(y));
    CarriesFour(input, at, c, e, c', e');
    WrittenIsDecoded(lens, input, at, 257 + z);
    ReadsNumber(input, at + |c|, l, LengthExtra(z));
    WrittenIsDecoded(dlens, input, at + |c| + |e|, y);
    ReadsNumber(input, at + |c| + |e| + |c'|, d, DistExtra(y));
    MatchSpelled(dlens, input, at + |c|, z, y);
  }

  lemma {:induction false} MatchFits(length: nat, dist: nat)
    requires 3 <= length <= 258 && 1 <= dist <= 32768
    ensures var z := LengthSymbol(length, 28); LengthBase(z) <= length < LengthBase(z) + Pow2(LengthExtra(z))
    ensures var y := DistSymbol(dist, 29); DistBase(y) <= dist < DistBase(y) + Pow2(DistExtra(y))
  {
    hide LengthBase, LengthExtra, DistBase, DistExtra;
    DistancesTile(29);
    LengthFits(length, 28);
    DistFits(dist, 29);
  }

  lemma {:induction false} MatchSpelled(dlens: seq<nat>, input: nat -> nat, at: nat, z: nat, y: nat)
    requires z < 31 && |dlens| == 32 && y < 32
    requires BitByBit(dlens, input, at + LengthExtra(z), 1) == Some((y, dlens[y]))
    ensures var after := at + LengthExtra(z) + dlens[y];
      MatchAt(dlens, input, at, z) == Some((LengthBase(z) + Number(input, at, LengthExtra(z)),
        DistBase(y) + Number(input, after, DistExtra(y)), after + DistExtra(y)))
  {
    hide BitByBit, Number, LengthBase, LengthExtra, DistBase, DistExtra;
  }

  /** An item that is written is decoded to what it expands to. */
  lemma {:induction false} ItemIsDecoded(lens: seq<nat>, dlens: seq<nat>, input: nat -> nat, at: nat, output: seq<nat>,
      item: Item)
    requires Codes(lens, dlens)
    requires Writable(lens, dlens, item, |output|) && Carries(input, at, ItemBits(lens, dlens, item, |output|))
    ensures TurnAt(lens, dlens, input, at, output) ==
      More(at + |ItemBits(lens, dlens, item, |output|)|, Expand(output, item))
  {
    hide Accepted, WellFormed, Carries, BitByBit, CodeBits, Repeated, CopyBytes, MatchAt;
    match item
    case Literal(b) => WrittenIsDecoded(lens, input, at, b);
    case Copy(l, d) =>
      MatchIsDecoded(lens, dlens, input, at, item, |output|);
      CopyRepeats(output, d, l);
  }

  /** The items can be written one after the other, and the end of the block has a code. */
  predicate BlockWritable(lens: seq<nat>, dlens: seq<nat>, output: seq<nat>, items: seq<Item>)
    requires |lens| == 288 && |dlens| == 32
    decreases |items|
  {
    if items == [] then lens[256] > 0
    else Writable(lens, dlens, items[0], |output|) && BlockWritable(lens, dlens, Expand(output, items[0]), items[1..])
  }

  function BlockBits(lens: seq<nat>, dlens: seq<nat>, output: seq<nat>, items: seq<Item>): Bits
    requires |lens| == 288 && |dlens| == 32 && BlockWritable(lens, dlens, output, items)
    decreases |items|
  {
    if items == [] then CodeBits(lens, 256)
    else
      ItemBits(lens, dlens, items[0], |output|) + BlockBits(lens, dlens, Expand(output, items[0]), items[1..])
  }

  function ExpandAll(lens: seq<nat>, dlens: seq<nat>, output: seq<nat>, items: seq<Item>): seq<nat>
    requires |lens| == 288 && |dlens| == 32 && BlockWritable(lens, dlens, output, items)
    decreases |items|
  {
    if items == [] then output else ExpandAll(lens, dlens, Expand(output, items[0]), items[1..])
  }

  /** A block that is written is decoded to what its items expand to, and decoding ends with its last bit. */
  lemma {:induction false} BlockIsDecoded(lens: seq<nat>, dlens: seq<nat>, input: nat -> nat, at: nat,
      output: seq<nat>, items: seq<Item>)
    requires Codes(lens, dlens) && BlockWritable(lens, dlens, output, items)
    requires Carries(input, at, BlockBits(lens, dlens, output, items))
    ensures BlockAt(lens, dlens, input, at, output, |items| + 1) ==
      Ended(at + |BlockBits(lens, dlens, output, items)|, ExpandAll(lens, dlens, output, items))
    decreases |items|
  {
    hide Accepted, WellFormed, Carries, BitByBit, CodeBits, ItemBits, Expand, MatchAt;
    if items == [] {
      WrittenIsDecoded(lens, input, at, 256);
    } else {
      hide TurnAt;
      var bits, longer := ItemBits(lens, dlens, items[0], |output|), Expand(output, items[0]);
      CarriesParts(input, at, bits, BlockBits(lens, dlens, longer, items[1..]));
      ItemIsDecoded(lens, dlens, input, at, output, items[0]);
      BlockIsDecoded(lens, dlens, input, at + |bits|, longer, items[1..]);
    }
  }

  /** So the code that inflates gives back what was written. */
  method Unpack(r: BitReader, tl: HuffmanTable, td: HuffmanTable, ghost lens: seq<nat>, ghost dlens: seq<nat>,
      output: seq<nat>, ghost items: seq<Item>, symbols: nat) returns (block: Block)
    requires r.Valid() && tl.Shaped() && tl.Tables(lens) && td.Shaped() && td.Tables(dlens) && Codes(lens, dlens)
    requires BlockWritable(lens, dlens, output, items) && symbols == |items| + 1
    requires r.At() >= 0 && Carries(r.input, r.At(), BlockBits(lens, dlens, output, items))
    modifies r
    ensures r.Valid() && r.At() == old(r.At()) + |BlockBits(lens, dlens, output, items)|
    ensures block == Ended(r.At(), ExpandAll(lens, dlens, output, items))
  {
    hide r.Valid, HuffmanTable.Tables, HuffmanTable.Shaped, Accepted, WellFormed, BlockAt, BlockBits, Carries,
      ExpandAll, BlockWritable;
    BlockIsDecoded(lens, dlens, r.input, r.At(), output, items);
    block := ParseBlock(r, tl, td, lens, dlens, output, symbols);
  }
}
