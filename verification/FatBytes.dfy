/**
 Bytes of a disk: numbers in little-endian order, and what overwriting a stretch of bytes leaves alone.
 */
module FatBytes {
  import opened FatChains

  type Byte = b: int | 0 <= b < 256

  /** Byte offsets of sectors and clusters are products of 32-bit numbers. */
  function U32(n: nat): nat {
    n % 0x1_0000_0000
  }

  lemma {:induction false} NoWrap(n: nat)
    requires n < 0x1_0000_0000
    ensures U32(n) == n
  {
  }

  /** Four bytes, lowest first. */
  function WordAt(d: seq<Byte>, at: nat): Word
    requires at + 4 <= |d|
  {
    var b0: int, b1: int, b2: int, b3: int := d[at], d[at + 1], d[at + 2], d[at + 3];
    b0 + 0x100 * b1 + 0x1_0000 * b2 + 0x100_0000 * b3
  }

  lemma {:induction false} FourBytes(w: Word)
    ensures w == w % 0x100 + 0x100 * (w / 0x100 % 0x100) + 0x1_0000 * (w / 0x1_0000 % 0x100) +
      0x100_0000 * (w / 0x100_0000)
    ensures w / 0x100_0000 < 0x100
  {
    var q1, q2, q3 := w / 0x100, w / 0x1_0000, w / 0x100_0000;
    assert q2 == q1 / 0x100 && q3 == q2 / 0x100;
    assert w == 0x100 * q1 + w % 0x100 && q1 == 0x100 * q2 + q1 % 0x100 && q2 == 0x100 * q3 + q2 % 0x100;
  }

  function WordBytes(w: Word): (b: seq<Byte>)
    ensures |b| == 4 && WordAt(b, 0) == w
  {
    FourBytes(w);
    [w % 0x100, w / 0x100 % 0x100, w / 0x1_0000 % 0x100, w / 0x100_0000]
  }

  function Patched(d: seq<Byte>, at: nat, b: seq<Byte>): (r: seq<Byte>)
    requires at + |b| <= |d|
    ensures |r| == |d|
  {
    d[..at] + b + d[at + |b|..]
  }

  /** The table that starts at byte `base`. */
  ghost function TableAt(d: seq<Byte>, base: nat, n: nat): (t: Table)
    requires base + 4 * n <= |d|
    ensures |t| == n
  {
    seq(n, c requires 0 <= c < n => WordAt(d, base + 4 * c))
  }

  lemma {:induction false} PatchedAt(d: seq<Byte>, at: nat, b: seq<Byte>, i: nat)
    requires at + |b| <= |d| && i < |d|
    ensures Patched(d, at, b)[i] == if at <= i < at + |b| then b[i - at] else d[i]
  {
  }

  /** A word away from the patch is what it was. */
  lemma {:induction false} WordAway(d: seq<Byte>, at: nat, b: seq<Byte>, k: nat)
    requires at + |b| <= |d| && k + 4 <= |d| && (k + 4 <= at || at + |b| <= k)
    ensures WordAt(Patched(d, at, b), k) == WordAt(d, k)
  {
    hide Patched;
    PatchedAt(d, at, b, k);
    PatchedAt(d, at, b, k + 1);
    PatchedAt(d, at, b, k + 2);
    PatchedAt(d, at, b, k + 3);
  }

  lemma {:induction false} WordPatched(d: seq<Byte>, at: nat, w: Word)
    requires at + 4 <= |d|
    ensures WordAt(Patched(d, at, WordBytes(w)), at) == w
  {
    hide Patched;
    var b := WordBytes(w);
    PatchedAt(d, at, b, at);
    PatchedAt(d, at, b, at + 1);
    PatchedAt(d, at, b, at + 2);
    PatchedAt(d, at, b, at + 3);
    assert WordAt(b, 0) == w;
    hide WordBytes;
  }

  /** A patched entry is a point update of the table. */
  lemma {:induction false} PatchEntry(d: seq<Byte>, base: nat, n: nat, c: nat, w: Word)
    requires base + 4 * n <= |d| && c < n
    ensures TableAt(Patched(d, base + 4 * c, WordBytes(w)), base, n) == TableAt(d, base, n)[c := w]
  {
    hide WordAt, Patched, WordBytes;
    var b := WordBytes(w);
    var e := Patched(d, base + 4 * c, b);
    forall k | 0 <= k < n
      ensures WordAt(e, base + 4 * k) == if k == c then w else WordAt(d, base + 4 * k)
    {
      if k == c {
        WordPatched(d, base + 4 * c, w);
      } else {
        WordAway(d, base + 4 * c, b, base + 4 * k);
      }
    }
  }

  /** Patching part of a sector and writing the sector back patches the disk. */
  lemma {:induction false} PatchSector(d: seq<Byte>, at: nat, size: nat, k: nat, b: seq<Byte>)
    requires at + size <= |d| && k + |b| <= size
    ensures Patched(d, at, Patched(d[at..at + size], k, b)) == Patched(d, at + k, b)
  {
    var e, f := Patched(d, at, Patched(d[at..at + size], k, b)), Patched(d, at + k, b);
    forall i | 0 <= i < |d|
      ensures e[i] == f[i]
    {
    }
  }

  function Slice(d: seq<Byte>, at: nat, n: nat): seq<Byte> {
    if at + n <= |d| then d[at..at + n] else []
  }

  lemma {:induction false} PatchBefore(d: seq<Byte>, at: nat, b: seq<Byte>, k: nat, n: nat)
    requires at + |b| <= k && k + n <= |d|
    ensures Slice(Patched(d, at, b), k, n) == Slice(d, k, n)
  {
  }

  lemma {:induction false} PatchBehind(d: seq<Byte>, at: nat, b: seq<Byte>, k: nat, n: nat)
    requires k + n <= at && at + |b| <= |d|
    ensures Slice(Patched(d, at, b), k, n) == Slice(d, k, n)
  {
  }

  lemma {:induction false} PatchThere(d: seq<Byte>, at: nat, b: seq<Byte>)
    requires at + |b| <= |d|
    ensures Slice(Patched(d, at, b), at, |b|) == b
  {
  }

  lemma {:induction false} PatchKeepsTable(d: seq<Byte>, base: nat, n: nat, at: nat, b: seq<Byte>)
    requires base + 4 * n <= at && at + |b| <= |d|
    ensures TableAt(Patched(d, at, b), base, n) == TableAt(d, base, n)
  {
    hide WordAt, Patched;
    forall c | 0 <= c < n
      ensures WordAt(Patched(d, at, b), base + 4 * c) == WordAt(d, base + 4 * c)
    {
      WordAway(d, at, b, base + 4 * c);
    }
  }
}
