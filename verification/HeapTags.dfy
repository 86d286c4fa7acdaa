/**
 Boundary tags as values.  A tag is named by its address; 0 is the null pointer.  Two linked structures run
 through the tags: the neighbour chain of a region (left, right) and the free list of a bin (prev, next).
 */
module HeapTags {
  import opened Powers

  const TAG_SIZE: nat := 64
  const PAGE_SIZE: nat := 4096
  const MINEXP: nat := 8
  const MAXEXP: nat := 32
  const MAXCOMPLETE: nat := 65536

  datatype Tag = Tag(size: nat, realSize: nat, index: int, left: nat, right: nat, next: nat, prev: nat)

  datatype Heap = Heap(tags: map<nat, Tag>, freePages: seq<nat>, completePages: seq<int>)

  /** What the proofs know beside the heap itself: the regions (base to length), the region of each tag, and the
      moment each free tag was put in its bin. */
  datatype Ghosts = Ghosts(regions: map<nat, nat>, home: map<nat, nat>, stamp: map<nat, nat>, clock: nat)

  /** 1 << shift as the code computes it: an int, so that bit 31 is the sign and widens to 64 ones. */
  function Shl(shift: nat): nat
    requires shift < MAXEXP
  {
    if shift == 31 then 0xffff_ffff_8000_0000 else Pow2(shift)
  }

  function ExpFrom(size: nat, shift: nat): (r: nat)
    requires MINEXP <= shift <= MAXEXP
    ensures shift - 1 <= r < MAXEXP
    decreases MAXEXP - shift
  {
    if shift == MAXEXP || Shl(shift) > size then shift - 1 else ExpFrom(size, shift + 1)
  }

  /** The exponent getexp returns. */
  function GetExp(size: nat): (r: int)
    ensures r == -1 || MINEXP <= r < MAXEXP
  {
    if size < 256 then -1 else ExpFrom(size, MINEXP + 1)
  }

  lemma {:induction false} ExpFromBrackets(size: nat, shift: nat)
    requires MINEXP < shift <= 31 && Pow2(shift - 1) <= size < Pow2(31)
    ensures Pow2(ExpFrom(size, shift)) <= size < Pow2(ExpFrom(size, shift) + 1)
    decreases 31 - shift
  {
    Pow2Values();
    if shift < 31 && Shl(shift) <= size {
      ExpFromBrackets(size, shift + 1);
    }
  }

  lemma {:induction false} ExpFromSaturates(size: nat, shift: nat)
    requires MINEXP < shift <= 31 && Pow2(31) <= size
    ensures ExpFrom(size, shift) == if size < 0xffff_ffff_8000_0000 then 30 else 31
    decreases 31 - shift
  {
    Pow2Values();
    if shift < 31 {
      Pow2Grows(shift, 31);
      ExpFromSaturates(size, shift + 1);
    }
  }

  /** getexp's comment promises 2^n <= size < 2^(n+1); it holds exactly for sizes from 256 up to 2^31. */
  lemma {:induction false} GetExpBrackets(size: nat)
    requires size < 0x1_0000_0000_0000_0000
    ensures 256 <= size < 0x8000_0000 <==> GetExp(size) >= 0 && Pow2(GetExp(size)) <= size < Pow2(GetExp(size) + 1)
  {
    Pow2Values();
    if 256 <= size < 0x8000_0000 {
      ExpFromBrackets(size, MINEXP + 1);
    } else if 0x8000_0000 <= size {
      ExpFromSaturates(size, MINEXP + 1);
    }
  }

  /** The bin insert_tag and free choose for a tag of this size. */
  function Bin(realSize: nat): (b: nat)
    requires realSize >= TAG_SIZE
    ensures MINEXP <= b < MAXEXP
  {
    var e := GetExp(realSize - TAG_SIZE);
    if e < MINEXP then MINEXP else e
  }

  lemma {:induction false} ExpFromMonotone(a: nat, b: nat, shift: nat)
    requires MINEXP <= shift <= MAXEXP && a <= b
    ensures ExpFrom(a, shift) <= ExpFrom(b, shift)
    decreases MAXEXP - shift
  {
    hide Shl;
    if shift < MAXEXP && Shl(shift) <= a {
      ExpFromMonotone(a, b, shift + 1);
    }
  }

  /** A bin holds the tags whose room is within a power of two and the next; room below 512 bytes goes to the lowest. */
  lemma {:induction false} BinBrackets(realSize: nat)
    requires TAG_SIZE <= realSize < TAG_SIZE + 0x8000_0000
    ensures var b := Bin(realSize);
      realSize - TAG_SIZE < Pow2(b + 1) && (b > MINEXP ==> Pow2(b) <= realSize - TAG_SIZE)
  {
    GetExpBrackets(realSize - TAG_SIZE);
    Pow2Values();
  }

  function WithNext(tags: map<nat, Tag>, t: nat, next: nat): map<nat, Tag> {
    if t in tags then tags[t := tags[t].(next := next)] else tags
  }

  function WithPrev(tags: map<nat, Tag>, t: nat, prev: nat): map<nat, Tag> {
    if t in tags then tags[t := tags[t].(prev := prev)] else tags
  }

  function WithLeft(tags: map<nat, Tag>, t: nat, left: nat): map<nat, Tag> {
    if t in tags then tags[t := tags[t].(left := left)] else tags
  }

  /** insert_tag with the bin already chosen. */
  function Insert(h: Heap, t: nat, b: nat): Heap
    requires t in h.tags && b < |h.freePages|
  {
    var head := h.freePages[b];
    var tag := h.tags[t].(index := b);
    var tag' := if head != 0 then tag.(next := head) else tag;
    var tags := if head != 0 then WithPrev(h.tags, head, t) else h.tags;
    h.(tags := tags[t := tag'], freePages := h.freePages[b := t])
  }

  /** remove_tag. */
  function Remove(h: Heap, t: nat): Heap
    requires t in h.tags && 0 <= h.tags[t].index < |h.freePages|
  {
    var tag := h.tags[t];
    var free := if h.freePages[tag.index] == t then h.freePages[tag.index := tag.next] else h.freePages;
    var tags := if tag.prev != 0 then WithNext(h.tags, tag.prev, tag.next) else h.tags;
    var tags' := if tag.next != 0 then WithPrev(tags, tag.next, tag.prev) else tags;
    h.(tags := tags'[t := tag.(next := 0, prev := 0, index := -1)], freePages := free)
  }

  /** `l` swallows its right neighbour `r`: melt_left(r), and the end of absorb_right(l). */
  function Merge(tags: map<nat, Tag>, l: nat, r: nat): map<nat, Tag>
    requires l in tags && r in tags
  {
    var right := tags[r].right;
    var tags' := if right != 0 then WithLeft(tags, right, l) else tags;
    tags'[l := tags[l].(realSize := tags[l].realSize + tags[r].realSize, right := right)] - {r}
  }

  /** split_tag up to its insert_tag: what `t` does not need becomes a tag of its own.  Its size field is not written
      by the code; it is shown as 0. */
  function Split(tags: map<nat, Tag>, t: nat): map<nat, Tag>
    requires t in tags && TAG_SIZE + tags[t].size <= tags[t].realSize
  {
    var tag := tags[t];
    var n := t + TAG_SIZE + tag.size;
    var newTag := Tag(0, tag.realSize - TAG_SIZE - tag.size, -1, t, tag.right, 0, 0);
    var tags' := if tag.right != 0 then WithLeft(tags, tag.right, n) else tags;
    tags'[n := newTag][t := tag.(right := n, realSize := TAG_SIZE + tag.size)]
  }

  // ---- The invariant, tag by tag ----

  /** The tag fills its place in its region, and its neighbours point back. */
  ghost predicate Placed(tags: map<nat, Tag>, g: Ghosts, t: nat)
    requires t in tags
  {
    var tag := tags[t];
    0 < t && TAG_SIZE <= tag.realSize && t in g.home && g.home[t] in g.regions &&
    g.home[t] <= t && t + tag.realSize <= g.home[t] + g.regions[g.home[t]] &&
    (tag.left == 0 <==> t == g.home[t]) &&
    (tag.right == 0 <==> t + tag.realSize == g.home[t] + g.regions[g.home[t]]) &&
    (tag.left != 0 ==> tag.left in tags && tags[tag.left].right == t) &&
    (tag.right != 0 ==> tag.right == t + tag.realSize && tag.right in tags && tags[tag.right].left == t &&
                        tag.right in g.home && g.home[tag.right] == g.home[t])
  }

  ghost predicate AllPlaced(tags: map<nat, Tag>, g: Ghosts) {
    forall t {:trigger Placed(tags, g, t)} | t in tags :: Placed(tags, g, t)
  }

  ghost predicate Apart(tags: map<nat, Tag>) {
    forall t, u | t in tags && u in tags && t < u :: t + tags[t].realSize <= u
  }

  /** Regions lie apart, and each starts with a tag. */
  ghost predicate RegionsOk(tags: map<nat, Tag>, g: Ghosts) {
    (forall base <- g.regions :: base in tags && base in g.home && g.home[base] == base) &&
    (forall a, b | a in g.regions && b in g.regions && a < b :: a + g.regions[a] <= b)
  }

  ghost predicate Tiled(tags: map<nat, Tag>, g: Ghosts) {
    AllPlaced(tags, g) && Apart(tags) && RegionsOk(tags, g)
  }

  /** The tag sits in the list of its bin, between its list neighbours, or is in no list. */
  ghost predicate Binned(h: Heap, g: Ghosts, t: nat)
    requires t in h.tags && |h.freePages| == MAXEXP
  {
    var tag := h.tags[t];
    if tag.index < 0 then tag.index == -1 && tag.next == 0 && tag.prev == 0
    else
      tag.realSize >= TAG_SIZE && tag.index == Bin(tag.realSize) && t in g.stamp && g.stamp[t] < g.clock &&
      (tag.prev == 0 <==> h.freePages[tag.index] == t) &&
      (tag.prev != 0 ==> tag.prev in h.tags && h.tags[tag.prev].index == tag.index && h.tags[tag.prev].next == t) &&
      (tag.next != 0 ==> tag.next in h.tags && h.tags[tag.next].index == tag.index && h.tags[tag.next].prev == t &&
                         tag.next in g.stamp && g.stamp[tag.next] < g.stamp[t])
  }

  ghost predicate Listed(h: Heap, g: Ghosts) {
    |h.freePages| == MAXEXP && 0 !in h.tags &&
    (forall t {:trigger Binned(h, g, t)} | t in h.tags :: Binned(h, g, t)) &&
    (forall b | 0 <= b < MAXEXP && h.freePages[b] != 0 :: h.freePages[b] in h.tags && h.tags[h.freePages[b]].index == b)
  }

  ghost predicate NoTwoFree(tags: map<nat, Tag>) {
    forall t <- tags | tags[t].index >= 0 && tags[t].right in tags :: tags[tags[t].right].index < 0
  }

  /** Tags with nothing on either side that lie in bin `b`. */
  ghost function Whole(tags: map<nat, Tag>, b: int): set<nat> {
    set t | t in tags && tags[t].index == b && tags[t].left == 0 && tags[t].right == 0
  }

  ghost predicate Counted(h: Heap) {
    |h.completePages| == MAXEXP && forall b | 0 <= b < MAXEXP :: h.completePages[b] == |Whole(h.tags, b)|
  }

  /** Tags handed out, all but the loose ones that malloc or free is working on, hold what was asked for. */
  ghost predicate Paid(tags: map<nat, Tag>, loose: set<nat>) {
    forall t <- tags | tags[t].index < 0 && t !in loose :: TAG_SIZE + tags[t].size <= tags[t].realSize
  }

  ghost predicate Inv(h: Heap, g: Ghosts, loose: set<nat>) {
    Tiled(h.tags, g) && Listed(h, g) && NoTwoFree(h.tags) && Counted(h) && Paid(h.tags, loose) &&
    forall t <- loose :: t in h.tags && h.tags[t].index < 0
  }
}
