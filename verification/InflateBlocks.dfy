/**
 A whole block of literals and matches: decoding it with tables and a bit buffer, against decoding it from the bits.
 */
module InflateBlocks {
  import opened BitReversal
  import opened HuffmanCodes
  import opened HuffmanTables
  import opened Inflate
  import opened Options
  import opened Powers

  // Section 3.2.5 of RFC 1951; the last two lengths and distances are unused there and 0 here.

  function LengthBase(z: nat): nat
    requires z < 31
  {
    [3, 4, 5, 6, 7, 8, 9, 10, 11, 13, 15, 17, 19, 23, 27, 31, 35, 43, 51, 59, 67, 83, 99, 115, 131, 163, 195, 227, 258,
      0, 0][z]
  }

  function LengthExtra(z: nat): (n: nat)
    requires z < 31
    ensures n <= 5
  {
    [0, 0, 0, 0, 0, 0, 0, 0, 1, 1, 1, 1, 2, 2, 2, 2, 3, 3, 3, 3, 4, 4, 4, 4, 5, 5, 5, 5, 0, 0, 0][z]
  }

  function DistBase(z: nat): nat
    requires z < 32
  {
    [1, 2, 3, 4, 5, 7, 9, 13, 17, 25, 33, 49, 65, 97, 129, 193, 257, 385, 513, 769, 1025, 1537, 2049, 3073, 4097, 6145,
     8193, 12289, 16385, 24577, 0, 0][z]
  }

  function DistExtra(z: nat): (n: nat)
    requires z < 32
    ensures n <= 13
  {
    [0, 0, 0, 0, 1, 1, 2, 2, 3, 3, 4, 4, 5, 5, 6, 6, 7, 7, 8, 8, 9, 9, 10, 10, 11, 11, 12, 12, 13, 13, 0, 0][z]
  }

  /** The number the n bits from bit `at` on spell, the first weighing least. */
  function Number(input: nat -> nat, at: nat, n: nat): nat
    decreases n
  {
    if n == 0 then 0 else StreamBit(input, at) + 2 * Number(input, at + 1, n - 1)
  }

  /** One symbol's work: decoding fails, the block ends, the copy would read what it has not written, or it goes on. */
  datatype Turn = Fail | End(at: nat) | Stray | More(at: nat, output: seq<nat>)

  /** The length and distance of a match, the bits after them, or nothing when no code is spelled. */
  ghost function MatchAt(dlens: seq<nat>, input: nat -> nat, at: nat, z: nat): Option<(nat, nat, nat)>
    requires z < 31 && |dlens| <= 32
  {
    var length := LengthBase(z) + Number(input, at, LengthExtra(z));
    match BitByBit(dlens, input, at + LengthExtra(z), 1)
    case None => None
    case Some(q) =>
      var after := at + LengthExtra(z) + q.1;
      SymbolInRange(dlens, input, at + LengthExtra(z), 1);
      Some((length, DistBase(q.0) + Number(input, after, DistExtra(q.0)), after + DistExtra(q.0)))
  }

  /** One symbol decoded from the bits. */
  ghost function TurnAt(lens: seq<nat>, dlens: seq<nat>, input: nat -> nat, at: nat, output: seq<nat>): Turn
    requires |lens| <= 288 && |dlens| <= 32
  {
    match BitByBit(lens, input, at, 1)
    case None => Fail
    case Some(q) =>
      SymbolInRange(lens, input, at, 1);
      if q.0 < 256 then More(at + q.1, output + [q.0])
      else if q.0 == 256 then End(at + q.1)
      else
        match MatchAt(dlens, input, at + q.1, q.0 - 257)
        case None => Fail
        case Some(m) => Appended(output, m.0, m.1, m.2)
  }

  /** The output after a match. */
  function Appended(output: seq<nat>, length: nat, dist: nat, at: nat): Turn {
    if dist > |output| then Fail
    else if dist == 0 then (if length == 0 then More(at, output) else Stray)
    else More(at, output + Repeated(output, dist, length))
  }

  function Repeated(output: seq<nat>, dist: nat, length: nat): seq<nat>
    requires 0 < dist <= |output|
  {
    seq(length, k requires 0 <= k => ModBelow(k, dist); output[|output| - dist + k % dist])
  }

  lemma {:induction false} ModBelow(k: nat, d: nat)
    requires d > 0
    ensures 0 <= k % d < d
  {
  }

  lemma {:induction false} SymbolInRange(lens: seq<nat>, input: nat -> nat, at: nat, s: nat)
    ensures BitByBit(lens, input, at, s).Some? ==> BitByBit(lens, input, at, s).value.0 < |lens|
    decreases MAXBITS + 1 - s
  {
    if s <= MAXBITS {
      SymbolInRange(lens, input, at, s + 1);
    }
  }

  /** A block, or as much of it as `symbols` symbols give. */
  datatype Block = Failed | Strayed | Ended(at: nat, output: seq<nat>) | Unfinished(at: nat, output: seq<nat>)

  ghost function BlockAt(lens: seq<nat>, dlens: seq<nat>, input: nat -> nat, at: nat, output: seq<nat>,
      symbols: nat): Block
    requires |lens| <= 288 && |dlens| <= 32
    decreases symbols
  {
    if symbols == 0 then Unfinished(at, output)
    else match TurnAt(lens, dlens, input, at, output)
      case Fail => Failed
      case Stray => Strayed
      case End(after) => Ended(after, output)
      case More(after, longer) => BlockAt(lens, dlens, input, after, longer, symbols - 1)
  }

  /** A copy strays only where a distance symbol that RFC 1951 leaves unused is decoded. */
  lemma {:induction false} StraysOnlyUnused(lens: seq<nat>, dlens: seq<nat>, input: nat -> nat, at: nat,
      output: seq<nat>)
    requires |lens| <= 288 && |dlens| <= 30
    ensures TurnAt(lens, dlens, input, at, output) != Stray
  {
    hide BitByBit, Number, Repeated, LengthBase, LengthExtra;
    match BitByBit(lens, input, at, 1)
    case None =>
    case Some(q) =>
      SymbolInRange(lens, input, at, 1);
      if q.0 > 256 {
        SymbolInRange(dlens, input, at + q.1 + LengthExtra(q.0 - 257), 1);
      }
  }

  lemma {:induction false} LowIsNumber(v: nat, input: nat -> nat, at: nat, n: nat)
    requires forall k | 0 <= k < n :: Bit(v, k) == StreamBit(input, at + k)
    ensures Low(v, n) == Number(input, at, n)
    decreases n
  {
    if n > 0 {
      assert Bit(v, 0) == StreamBit(input, at + 0);
      forall k | 0 <= k < n - 1
        ensures Bit(v / 2, k) == StreamBit(input, at + 1 + k)
      {
        assert Bit(v, k + 1) == StreamBit(input, at + (k + 1));
      }
      LowIsNumber(v / 2, input, at + 1, n - 1);
    }
  }

  /** _ssfn__zreceive: n bits as a number. */
  method Receive(r: BitReader, n: nat) returns (k: nat)
    requires r.Valid() && n <= 24
    modifies r
    ensures r.Valid() && r.At() == old(r.At()) + n && old(r.At()) >= 0 && k == Number(r.input, old(r.At()), n)
  {
    hide Low, Bit, StreamBit, Number, Pow2;
    if r.numBits < n {
      r.FillBits();
    }
    LowIsNumber(r.codeBuffer, r.input, r.At(), n);
    k := Low(r.codeBuffer, n);
    r.Consume(n);
  }

  /** The part of the loop that decodes the length and the distance of a match and copies it. */
  method ParseMatch(r: BitReader, td: HuffmanTable, ghost dlens: seq<nat>, z: nat, output: seq<nat>)
      returns (turn: Turn)
    requires r.Valid() && td.Shaped() && td.Tables(dlens) && |dlens| <= 32 && z < 31
    modifies r
    ensures r.Valid() && r.At() >= 0 && old(r.At()) >= 0
    ensures match MatchAt(dlens, r.input, old(r.At()), z)
      case None => turn == Fail
      case Some(m) => turn == Appended(output, m.0, m.1, m.2)
    ensures !turn.End? && (turn.More? ==> turn.at == r.At())
  {
    hide r.Valid, HuffmanTable.Tables, HuffmanTable.Shaped, BitByBit, Number, Repeats, Repeated, LengthBase,
      LengthExtra, DistBase, DistExtra;
    At0(r);
    ghost var at := r.At();
    var more := Receive(r, LengthExtra(z));
    var length := LengthBase(z) + more;
    ghost var at1 := r.At();
    SymbolInRange(dlens, r.input, at1, 1);
    var d := Decode(r, td, dlens);
    At0(r);
    if d < 0 {
      return Fail;
    }
    ghost var at2 := r.At();
    more := Receive(r, DistExtra(d));
    var dist := DistBase(d) + more;
    At0(r);
    if |output| < dist {
      return Fail;
    }
    if dist == 0 {
      // Nothing lies between the copy's source and its destination.
      return if length == 0 then More(r.At(), output) else Stray;
    }
    var copied := CopyMatch(output, dist, length);
    CopyIsRepeated(output, dist, length, copied.value);
    turn := More(r.At(), copied.value);
  }

  lemma {:induction false} At0(r: BitReader)
    requires r.Valid()
    ensures r.At() >= 0
  {
  }

  lemma {:induction false} CopyIsRepeated(output: seq<nat>, dist: nat, length: nat, copied: seq<nat>)
    requires 0 < dist <= |output| && |copied| == |output| + length && output <= copied &&
      Repeats(output, dist, copied[|output|..])
    ensures copied == output + Repeated(output, dist, length)
  {
    assert copied == output + copied[|output|..];
  }

  /** One turn of the loop in _ssfn__parse_huffman_block. */
  method ParseSymbol(r: BitReader, tl: HuffmanTable, td: HuffmanTable, ghost lens: seq<nat>, ghost dlens: seq<nat>,
      output: seq<nat>)
    returns (turn: Turn)
    requires r.Valid() && tl.Shaped() && tl.Tables(lens) && td.Shaped() && td.Tables(dlens) && |lens| <= 288 &&
      |dlens| <= 32
    modifies r
    ensures r.Valid() && old(r.At()) >= 0 && turn == TurnAt(lens, dlens, r.input, old(r.At()), output)
    ensures turn.More? || turn.End? ==> turn.at == r.At()
  {
    hide r.Valid, HuffmanTable.Tables, HuffmanTable.Shaped, BitByBit, MatchAt, Appended;
    At0(r);
    SymbolInRange(lens, r.input, r.At(), 1);
    var z := Decode(r, tl, lens);
    At0(r);
    if z < 256 {
      if z < 0 {
        return Fail;
      }
      return More(r.At(), output + [z]);
    }
    if z == 256 {
      return End(r.At());
    }
    turn := ParseMatch(r, td, dlens, z - 257, output);
  }

  /** _ssfn__parse_huffman_block, for as many symbols as it is given: symbol by symbol it does what decoding from the
      bits does, so it ends with the same output at the same bit, fails together with it, or goes on for as long. */
  method ParseBlock(r: BitReader, tl: HuffmanTable, td: HuffmanTable, ghost lens: seq<nat>, ghost dlens: seq<nat>,
      output: seq<nat>, symbols: nat) returns (block: Block)
    requires r.Valid() && tl.Shaped() && tl.Tables(lens) && td.Shaped() && td.Tables(dlens) && |lens| <= 288 &&
      |dlens| <= 32
    modifies r
    ensures r.Valid() && old(r.At()) >= 0 && block == BlockAt(lens, dlens, r.input, old(r.At()), output, symbols)
    ensures block.Ended? || block.Unfinished? ==> block.at == r.At()
  {
    hide r.Valid, HuffmanTable.Tables, HuffmanTable.Shaped, TurnAt;
    At0(r);
    var zout, left := output, symbols;
    while left > 0
      invariant 0 <= left <= symbols && r.Valid() && r.At() >= 0
      invariant BlockAt(lens, dlens, r.input, old(r.At()), output, symbols) ==
        BlockAt(lens, dlens, r.input, r.At(), zout, left)
    {
      var turn := ParseSymbol(r, tl, td, lens, dlens, zout);
      match turn {
        case Fail => return Failed;
        case Stray => return Strayed;
        case End(at) => return Ended(at, zout);
        case More(at, longer) => zout := longer;
      }
      At0(r);
      left := left - 1;
    }
    block := Unfinished(r.At(), zout);
  }
}
