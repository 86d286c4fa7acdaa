/**
 Physical memory as the kernel's page-table code sees it: a sequence of 4 KiB frames, each of which is
 512 64-bit words.  A word is split as the code splits it, into the frame number (bits 12 and up) and the
 low twelve bits, kept as the set of bit numbers that are one.
 */
module PhysicalMemory {

  const BITMAP_SIZE: nat := 524288
  const ENTRIES: nat := 512

  /** Slots of a root that belong to its process; 508 to 510 are the kernel's, 511 leads back to the root. */
  const PRIVATE_SLOTS: nat := 508

  const PRESENT: nat := 0
  const WRITABLE: nat := 1
  const USER: nat := 2
  const LARGE: nat := 7

  /** Frame numbers that `int` holds exactly, as kfree_frame narrows them; memory has a frame for each. */
  const FRAME_LIMIT: nat := 0x8000_0000
  type FrameNo = n: nat | n < FRAME_LIMIT

  datatype Word = Word(frame: FrameNo, bits: set<nat>)

  const ZERO_WORD := Word(0, {})

  /** The bits of every table and user page that a clone installs. */
  const CLONE_BITS: set<nat> := {PRESENT, WRITABLE, USER}

  type Page = s: seq<Word> | |s| == ENTRIES witness seq(ENTRIES, _ => ZERO_WORD)

  type Phys = seq<Page>

  const ZERO_PAGE: Page := Row(map[])

  /** A table with these words, and else empty. */
  function Row(words: map<nat, Word>): Page {
    seq(ENTRIES, i => if i in words then words[i] else ZERO_WORD)
  }

  /** An entry above the last level that leads to another table: neither empty nor a large page. */
  predicate IsTable(w: Word) {
    w != ZERO_WORD && LARGE !in w.bits
  }

  /** One 64-bit store into a frame. */
  function Store(p: Phys, t: nat, i: nat, w: Word): (q: Phys)
    requires t < |p| && i < ENTRIES
  {
    p[t := p[t][i := w]]
  }

  lemma StoreSame(p: Phys, t: nat, i: nat)
    requires t < |p| && i < ENTRIES
    ensures Store(p, t, i, p[t][i]) == p
  {
    assert p[t][i := p[t][i]] == p[t];
  }

  /** The two memories hold the same words in every frame of `frames`. */
  ghost predicate AgreeOn(p: Phys, q: Phys, frames: set<nat>) {
    |p| == |q| && forall f <- frames | f < |p| :: p[f] == q[f]
  }
}
