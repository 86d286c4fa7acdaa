/**
 A heap on which free hangs: as many whole regions in one bin as their count may reach, and the last block in use of one
 more region of that size.
 */
module CrowdedHeaps {
  import opened HeapTags
  import opened HeapTheorems
  import opened Liballoc

  /** The i-th region, of one page. */
  function Base(i: nat): (base: nat)
    ensures base > 0
  {
    PAGE_SIZE * (i + 1)
  }

  /** The regions in the order in which they were freed, each a tag in the bin; the last one is in use. */
  function CrowdedTag(n: nat, i: nat): Tag {
    if i < n then
      Tag(0, PAGE_SIZE, Bin(PAGE_SIZE), 0, 0, PAGE_SIZE * i, if i + 1 < n then PAGE_SIZE * (i + 2) else 0)
    else Tag(PAGE_SIZE - TAG_SIZE, PAGE_SIZE, -1, 0, 0, 0, 0)
  }

  ghost function CrowdedTags(n: nat): (tags: map<nat, Tag>)
    ensures forall i | 0 <= i <= n :: Base(i) in tags && tags[Base(i)] == CrowdedTag(n, i)
    ensures forall t <- tags :: exists i :: 0 <= i <= n && t == Base(i)
  {
    map i | 0 <= i <= n :: Base(i) := CrowdedTag(n, i)
  }

  /** `n` free regions and one in use. */
  ghost predicate Crowded(h: Heap, g: Ghosts, n: nat) {
    n > 0 && h.tags == CrowdedTags(n) && |h.freePages| == |h.completePages| == MAXEXP &&
    (forall b | 0 <= b < MAXEXP :: h.freePages[b] == if b == Bin(PAGE_SIZE) then Base(n - 1) else 0) &&
    (forall b | 0 <= b < MAXEXP :: h.completePages[b] == if b == Bin(PAGE_SIZE) then n else 0) &&
    g.regions == (map t | t in h.tags :: PAGE_SIZE) && g.home == (map t | t in h.tags :: t) &&
    g.stamp == (map t | t in h.tags :: t / PAGE_SIZE) && g.clock == n + 2
  }

  lemma {:induction false} CrowdedInv(h: Heap, g: Ghosts, n: nat)
    requires Crowded(h, g, n)
    ensures Inv(h, g, {})
  {
    hide Bin, Crowded, CrowdedTags, Whole, Placed, Binned;
    CrowdedShape(h, g, n);
    forall t | t in h.tags
      ensures Placed(h.tags, g, t) && Binned(h, g, t)
    {
      var i :| 0 <= i <= n && t == Base(i);
      CrowdedPlaced(h, g, n, i);
      CrowdedBinned(h, g, n, i);
    }
    CrowdedCount(h, n);
    assert h.completePages == seq(MAXEXP, b => if b == Bin(PAGE_SIZE) then n else 0);
  }

  lemma {:induction false} CrowdedShape(h: Heap, g: Ghosts, n: nat)
    requires Crowded(h, g, n)
    ensures h.tags == CrowdedTags(n) && 0 !in h.tags && |h.freePages| == |h.completePages| == MAXEXP
    ensures forall b | 0 <= b < MAXEXP && h.freePages[b] != 0 ::
      h.freePages[b] in h.tags && h.tags[h.freePages[b]].index == b
    ensures forall b | 0 <= b < MAXEXP :: h.completePages[b] == if b == Bin(PAGE_SIZE) then n else 0
    ensures forall t <- h.tags :: exists i :: 0 <= i <= n && t == Base(i)
    ensures RegionsOk(h.tags, g) && HeapTags.Apart(h.tags) && NoTwoFree(h.tags) && Paid(h.tags, {})
  {
    hide Bin, CrowdedTags, CrowdedTag, Base;
    TagShapes(n);
    HeadShape(n);
    CrowdedRegions(h, g, n);
  }

  lemma {:induction false} TagShapes(n: nat)
    ensures forall t <- CrowdedTags(n) :: TagShape(n, t, CrowdedTags(n)[t])
  {
    hide Bin, CrowdedTags;
    forall t | t in CrowdedTags(n)
      ensures TagShape(n, t, CrowdedTags(n)[t])
    {
      var i :| 0 <= i <= n && t == Base(i);
      assert CrowdedTags(n)[t] == CrowdedTag(n, i);
    }
  }

  ghost predicate TagShape(n: nat, t: nat, tag: Tag) {
    t > 0 && t % PAGE_SIZE == 0 && tag.realSize == PAGE_SIZE && tag.left == tag.right == 0 &&
    (tag.index < 0 <==> t == Base(n)) && (tag.index < 0 ==> tag.size == PAGE_SIZE - TAG_SIZE)
  }

  lemma {:induction false} HeadShape(n: nat)
    requires n > 0
    ensures Base(n - 1) in CrowdedTags(n) && CrowdedTags(n)[Base(n - 1)].index == Bin(PAGE_SIZE)
  {
    hide Bin, CrowdedTags;
    assert CrowdedTags(n)[Base(n - 1)] == CrowdedTag(n, n - 1);
  }

  lemma {:induction false} CrowdedRegions(h: Heap, g: Ghosts, n: nat)
    requires Crowded(h, g, n)
    ensures RegionsOk(h.tags, g) && HeapTags.Apart(h.tags)
  {
    hide Bin, CrowdedTags, CrowdedTag, Base;
    TagShapes(n);
    forall t, u | t in h.tags && u in h.tags && t < u
      ensures t + PAGE_SIZE <= u
    {
      assert TagShape(n, t, h.tags[t]) && TagShape(n, u, h.tags[u]);
      Multiples(t, u);
    }
  }

  lemma {:induction false} Multiples(t: nat, u: nat)
    requires t % PAGE_SIZE == 0 && u % PAGE_SIZE == 0 && t < u
    ensures t + PAGE_SIZE <= u
  {
  }

  lemma {:induction false} CrowdedPlaced(h: Heap, g: Ghosts, n: nat, i: nat)
    requires Crowded(h, g, n) && i <= n
    ensures Base(i) in h.tags && Placed(h.tags, g, Base(i))
  {
    hide Bin, CrowdedTags;
    assert h.tags[Base(i)] == CrowdedTag(n, i);
  }

  lemma {:induction false} CrowdedBinned(h: Heap, g: Ghosts, n: nat, i: nat)
    requires Crowded(h, g, n) && i <= n
    ensures Base(i) in h.tags && Binned(h, g, Base(i))
  {
    hide Bin, CrowdedTags;
    assert h.tags[Base(i)] == CrowdedTag(n, i);
    if i > 0 {
      assert h.tags[Base(i - 1)] == CrowdedTag(n, i - 1);
    }
    if i < n {
      assert h.tags[Base(i + 1)] == CrowdedTag(n, i + 1);
    }
  }

  lemma {:induction false} CrowdedCount(h: Heap, n: nat)
    requires h.tags == CrowdedTags(n)
    ensures Counted(h.(completePages := seq(MAXEXP, b => if b == Bin(PAGE_SIZE) then n else 0)))
  {
    forall b: int
      ensures Whole(h.tags, b) == if b == Bin(PAGE_SIZE) then Bases(n) else if b == -1 then {Base(n)} else {}
    {
      CrowdedWhole(h.tags, n, b);
    }
    BasesCount(n);
  }

  lemma {:induction false} CrowdedWhole(tags: map<nat, Tag>, n: nat, b: int)
    requires tags == CrowdedTags(n)
    ensures Whole(tags, b) == if b == Bin(PAGE_SIZE) then Bases(n) else if b == -1 then {Base(n)} else {}
  {
    hide Bin, CrowdedTags;
    forall t
      ensures t in Whole(tags, b) <==> t in if b == Bin(PAGE_SIZE) then Bases(n) else if b == -1 then {Base(n)} else {}
    {
      if t in tags {
        var i :| 0 <= i <= n && t == Base(i);
        assert tags[t] == CrowdedTag(n, i);
      }
    }
  }

  ghost function Bases(n: nat): set<nat> {
    set i | 0 <= i < n :: Base(i)
  }

  lemma {:induction false} BasesCount(n: nat)
    ensures |Bases(n)| == n
  {
    if n > 0 {
      BasesCount(n - 1);
      assert Bases(n) == Bases(n - 1) + {Base(n - 1)};
    }
  }

  /** The failing input of free. */
  method FreeHangs(h: Heaps) returns (hung: bool)
    requires Crowded(h.State(), h.g, MAXCOMPLETE)
    requires h.live == map[Base(MAXCOMPLETE) + TAG_SIZE := PAGE_SIZE - TAG_SIZE]
    modifies h
    ensures hung
  {
    CrowdedInv(h.State(), h.g, MAXCOMPLETE);
    CrowdedBlocks(h.State(), h.g, h.live);
    hung := h.Free(Base(MAXCOMPLETE) + TAG_SIZE);
  }

  lemma {:induction false} CrowdedBlocks(h: Heap, g: Ghosts, live: map<nat, nat>)
    requires Crowded(h, g, MAXCOMPLETE) && live == map[Base(MAXCOMPLETE) + TAG_SIZE := PAGE_SIZE - TAG_SIZE]
    ensures Blocks(h.tags, live, {})
    ensures LastBlock(h.tags, g, Base(MAXCOMPLETE))
    ensures Base(MAXCOMPLETE) in g.home && g.home[Base(MAXCOMPLETE)] in g.regions
    ensures g.regions[g.home[Base(MAXCOMPLETE)]] == PAGE_SIZE
  {
    hide Bin, CrowdedTags, CrowdedTag, Base, Blocks;
    TagShapes(MAXCOMPLETE);
    var last := Base(MAXCOMPLETE);
    assert last in h.tags;
    OneBlock(h.tags, last);
    AloneThere(h.tags, g, last);
  }

  lemma {:induction false} OneBlock(tags: map<nat, Tag>, t: nat)
    requires t in tags && t > 0 && forall u <- tags :: tags[u].index < 0 <==> u == t
    ensures Blocks(tags, map[t + TAG_SIZE := tags[t].size], {})
  {
  }

  lemma {:induction false} AloneThere(tags: map<nat, Tag>, g: Ghosts, t: nat)
    requires t in tags && g.home == map u | u in tags :: u
    ensures LastBlock(tags, g, t)
  {
  }
}
