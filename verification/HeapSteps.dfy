/**
 What each step of malloc and free does to the heap invariant.
 */
module HeapSteps {
  import opened HeapTags

  predicate IsWhole(tags: map<nat, Tag>, t: nat)
    requires t in tags
  {
    tags[t].left == 0 && tags[t].right == 0
  }

  /** remove_tag, and the count of whole tags brought into line as malloc does. */
  function Take(h: Heap, t: nat): Heap
    requires t in h.tags && 0 <= h.tags[t].index < |h.freePages| && |h.completePages| == |h.freePages|
  {
    var b := h.tags[t].index;
    var h' := Remove(h, t);
    if IsWhole(h.tags, t) then h'.(completePages := h'.completePages[b := h'.completePages[b] - 1]) else h'
  }

  lemma {:induction false} RemoveBinned(h: Heap, g: Ghosts, t: nat, u: nat)
    requires Listed(h, g) && t in h.tags && h.tags[t].index >= 0 && u in h.tags
    requires Binned(h, g, t) && Binned(h, g, u)
    ensures Binned(Remove(h, t), g, u)
  {
    NeighboursBinned(h, g, t);
    if h.tags[u].index >= 0 {
      NeighboursBinned(h, g, u);
      RemoveField(h, t, u);
      if h.tags[u].prev != 0 { RemoveField(h, t, h.tags[u].prev); }
      if h.tags[u].next != 0 { RemoveField(h, t, h.tags[u].next); }
      if h.tags[t].prev != 0 { RemoveField(h, t, h.tags[t].prev); }
      if h.tags[t].next != 0 { RemoveField(h, t, h.tags[t].next); }
      hide Bin, Listed, Remove;
      if u == t {
      } else if h.tags[u].prev == t {
      } else if h.tags[u].next == t {
      } else {
      }
    }
  }

  lemma {:induction false} RemoveField(h: Heap, t: nat, u: nat)
    requires t in h.tags && 0 <= h.tags[t].index < |h.freePages| && u in h.tags
    ensures u in Remove(h, t).tags
    ensures Remove(h, t).freePages ==
      if h.freePages[h.tags[t].index] == t then h.freePages[h.tags[t].index := h.tags[t].next] else h.freePages
    ensures var a, b := h.tags[u], Remove(h, t).tags[u];
      b.size == a.size && b.realSize == a.realSize && b.left == a.left && b.right == a.right &&
      b.index == (if u == t then -1 else a.index) &&
      b.next == (if u == t then 0 else if u == h.tags[t].prev && u != 0 then h.tags[t].next else a.next) &&
      b.prev == (if u == t then 0 else if u == h.tags[t].next && u != 0 then h.tags[t].prev else a.prev)
  {
  }

  /** List neighbours are in their bin too. */
  lemma {:induction false} NeighboursBinned(h: Heap, g: Ghosts, t: nat)
    requires Listed(h, g) && t in h.tags && h.tags[t].index >= 0
    ensures h.tags[t].next != 0 ==> h.tags[t].next in h.tags && Binned(h, g, h.tags[t].next)
    ensures h.tags[t].prev != 0 ==> h.tags[t].prev in h.tags && Binned(h, g, h.tags[t].prev)
  {
    assert Binned(h, g, t);
  }

  lemma {:induction false} RemoveListed(h: Heap, g: Ghosts, t: nat)
    requires Listed(h, g) && t in h.tags && 0 <= h.tags[t].index < MAXEXP
    ensures Listed(Remove(h, t), g)
  {
    RemoveFields(h, t);
    assert Binned(h, g, t);
    assert |Remove(h, t).freePages| == MAXEXP;
    RemoveHeads(h, g, t);
    hide Binned, Bin, Remove;
    forall u | u in h.tags
      ensures Binned(Remove(h, t), g, u)
    {
      assert Binned(h, g, u);
      RemoveBinned(h, g, t, u);
    }
  }

  lemma {:induction false} RemoveHeads(h: Heap, g: Ghosts, t: nat)
    requires Listed(h, g) && t in h.tags && h.tags[t].index >= 0 && Binned(h, g, t)
    ensures forall b | 0 <= b < MAXEXP && Remove(h, t).freePages[b] != 0 ::
      Remove(h, t).freePages[b] in h.tags && Remove(h, t).freePages[b] in Remove(h, t).tags &&
      Remove(h, t).tags[Remove(h, t).freePages[b]].index == b
  {
    hide Bin;
  }

  /** Removing changes no size, no neighbour and no other tag's index. */
  lemma {:induction false} RemoveFields(h: Heap, t: nat)
    requires t in h.tags && 0 <= h.tags[t].index < |h.freePages|
    ensures Remove(h, t).tags.Keys == h.tags.Keys && Remove(h, t).completePages == h.completePages
    ensures forall u <- h.tags :: var a, b := h.tags[u], Remove(h, t).tags[u];
      b.size == a.size && b.realSize == a.realSize && b.left == a.left && b.right == a.right &&
      b.index == if u == t then -1 else a.index
  {
  }

  lemma {:induction false} TiledSame(tags: map<nat, Tag>, tags': map<nat, Tag>, g: Ghosts)
    requires Tiled(tags, g) && tags'.Keys == tags.Keys
    requires forall u <- tags ::
      tags'[u].realSize == tags[u].realSize && tags'[u].left == tags[u].left && tags'[u].right == tags[u].right
    ensures Tiled(tags', g)
  {
    forall t <- tags'
      ensures Placed(tags', g, t)
    {
      assert Placed(tags, g, t);
    }
  }

  lemma {:induction false} RemoveWhole(h: Heap, t: nat, b: int)
    requires t in h.tags && 0 <= h.tags[t].index < |h.freePages| && b >= 0
    ensures Whole(Remove(h, t).tags, b) == Whole(h.tags, b) - {t}
  {
    RemoveFields(h, t);
    hide Remove;
  }

  lemma {:induction false} TakeCounted(h: Heap, t: nat)
    requires Counted(h) && |h.freePages| == MAXEXP && t in h.tags && 0 <= h.tags[t].index < MAXEXP
    ensures Counted(Take(h, t))
  {
    forall b | 0 <= b < MAXEXP
      ensures Take(h, t).completePages[b] == |Whole(Take(h, t).tags, b)|
    {
      RemoveWhole(h, t, b);
      assert t in Whole(h.tags, b) <==> b == h.tags[t].index && IsWhole(h.tags, t);
    }
  }

  lemma {:induction false} CountsAside(h: Heap, counts: seq<int>, g: Ghosts)
    requires Listed(h, g)
    ensures Listed(h.(completePages := counts), g)
  {
    hide Bin;
    forall u <- h.tags
      ensures Binned(h.(completePages := counts), g, u)
    {
      assert Binned(h, g, u);
    }
  }

  lemma {:induction false} RemoveLoose(h: Heap, t: nat, loose: set<nat>)
    requires t in h.tags && 0 <= h.tags[t].index < |h.freePages|
    requires NoTwoFree(h.tags) && Paid(h.tags, loose) && forall u <- loose :: u in h.tags && h.tags[u].index < 0
    ensures NoTwoFree(Remove(h, t).tags) && Paid(Remove(h, t).tags, loose + {t})
    ensures forall u <- loose + {t} :: u in Remove(h, t).tags && Remove(h, t).tags[u].index < 0
  {
    RemoveFields(h, t);
    hide Remove;
  }

  /** Taking a free tag out of its bin leaves a good heap with that tag in hand. */
  lemma {:induction false} TakeKeeps(h: Heap, g: Ghosts, t: nat, loose: set<nat>)
    requires Inv(h, g, loose) && t in h.tags && h.tags[t].index >= 0
    ensures h.tags[t].index < MAXEXP
    ensures Inv(Take(h, t), g, loose + {t})
  {
    hide Listed, Tiled, NoTwoFree, Paid;
    BinInRange(h, g, t);
    RemoveFields(h, t);
    RemoveListed(h, g, t);
    TiledSame(h.tags, Remove(h, t).tags, g);
    TakeCounted(h, t);
    RemoveLoose(h, t, loose);
    hide Remove;
    CountsAside(Remove(h, t), Take(h, t).completePages, g);
  }

  lemma {:induction false} BinInRange(h: Heap, g: Ghosts, t: nat)
    requires Listed(h, g) && t in h.tags && h.tags[t].index >= 0
    ensures Binned(h, g, t) && h.tags[t].index < MAXEXP && |h.freePages| == MAXEXP
  {
  }

  // ---- Merging two neighbours that are both in hand ----

  lemma {:induction false} MergeFields(tags: map<nat, Tag>, l: nat, r: nat)
    requires l in tags && r in tags && l != r && 0 !in tags && tags[r].right != l && tags[r].right != r
    ensures Merge(tags, l, r).Keys == tags.Keys - {r}
    ensures forall u <- tags | u != r :: var a, b := tags[u], Merge(tags, l, r)[u];
      b.size == a.size && b.index == a.index && b.next == a.next && b.prev == a.prev &&
      b.realSize == (if u == l then a.realSize + tags[r].realSize else a.realSize) &&
      b.left == (if u == tags[r].right then l else a.left) &&
      b.right == (if u == l then tags[r].right else a.right)
  {
  }

  lemma {:induction false} MergePlaced(tags: map<nat, Tag>, g: Ghosts, l: nat, r: nat, u: nat)
    requires l in tags && r in tags && tags[l].right == r && 0 !in tags && u in tags && u != r
    requires Placed(tags, g, l) && Placed(tags, g, r) && Placed(tags, g, u)
    requires tags[r].right != 0 ==> Placed(tags, g, tags[r].right)
    ensures u in Merge(tags, l, r)
    ensures Placed(Merge(tags, l, r), g, u)
  {
    MergeFields(tags, l, r);
    hide Merge;
  }

  lemma {:induction false} MergeApart(tags: map<nat, Tag>, l: nat, r: nat)
    requires Apart(tags) && l in tags && r in tags && r == l + tags[l].realSize && l != r
    requires 0 !in tags && tags[r].right != l && tags[r].right != r
    ensures Apart(Merge(tags, l, r))
  {
    MergeFields(tags, l, r);
    hide Merge;
    var tags' := Merge(tags, l, r);
    forall t, u | t in tags' && u in tags' && t < u
      ensures t + tags'[t].realSize <= u
    {
      assert t + tags[t].realSize <= u;
      if t == l {
        assert r < u && r + tags[r].realSize <= u;
      }
    }
  }

  lemma {:induction false} MergeAllPlaced(tags: map<nat, Tag>, g: Ghosts, l: nat, r: nat)
    requires AllPlaced(tags, g) && l in tags && r in tags && tags[l].right == r && 0 !in tags
    requires l != r && tags[r].right != l && tags[r].right != r
    ensures AllPlaced(Merge(tags, l, r), g)
  {
    forall u | u in Merge(tags, l, r)
      ensures Placed(Merge(tags, l, r), g, u)
    {
      MergeFields(tags, l, r);
      assert Placed(tags, g, l) && Placed(tags, g, r) && Placed(tags, g, u);
      if tags[r].right != 0 { assert Placed(tags, g, tags[r].right); }
      hide Placed, Merge;
      MergePlaced(tags, g, l, r, u);
    }
  }

  lemma {:induction false} MergeTiled(tags: map<nat, Tag>, g: Ghosts, l: nat, r: nat)
    requires Tiled(tags, g) && l in tags && r in tags && tags[l].right == r && 0 !in tags
    ensures Tiled(Merge(tags, l, r), g)
  {
    hide Apart;
    assert Placed(tags, g, l) && Placed(tags, g, r);
    if tags[r].right != 0 { assert Placed(tags, g, tags[r].right); }
    MergeFields(tags, l, r);
    MergeApart(tags, l, r);
    hide Merge, AllPlaced;
    MergeAllPlaced(tags, g, l, r);
  }

  lemma {:induction false} MergeListed(h: Heap, g: Ghosts, l: nat, r: nat)
    requires Listed(h, g) && l in h.tags && r in h.tags && l != r && h.tags[r].right != l && h.tags[r].right != r
    requires h.tags[l].index < 0 && h.tags[r].index < 0
    ensures Listed(h.(tags := Merge(h.tags, l, r)), g)
  {
    MergeFields(h.tags, l, r);
    var h' := h.(tags := Merge(h.tags, l, r));
    hide Merge, Bin;
    forall u <- h'.tags
      ensures Binned(h', g, u)
    {
      assert Binned(h, g, u) && Binned(h, g, r);
      if h.tags[u].index >= 0 {
        NeighboursBinned(h, g, u);
      }
    }
  }

  lemma {:induction false} MergeLoose(tags: map<nat, Tag>, l: nat, r: nat, loose: set<nat>)
    requires l in tags && r in tags && l != r && 0 !in tags && tags[r].right != l && tags[r].right != r
    requires NoTwoFree(tags) && Paid(tags, loose) && tags[l].index < 0
    requires tags[r].right in tags ==> tags[tags[r].right].left == r
    ensures NoTwoFree(Merge(tags, l, r)) && Paid(Merge(tags, l, r), loose)
  {
    MergeFields(tags, l, r);
    hide Merge;
  }

  lemma {:induction false} MergeWhole(tags: map<nat, Tag>, l: nat, r: nat, b: int)
    requires l in tags && r in tags && l != r && 0 !in tags && tags[r].right != l && tags[r].right != r && b >= 0
    requires tags[l].index < 0 && tags[r].index < 0
    requires tags[r].right in tags ==> tags[tags[r].right].left == r
    ensures Whole(Merge(tags, l, r), b) == Whole(tags, b)
  {
    MergeFields(tags, l, r);
    hide Merge;
  }

  /** Two neighbours in hand become one. */
  lemma {:induction false} MergeKeeps(h: Heap, g: Ghosts, l: nat, r: nat, loose: set<nat>)
    requires Inv(h, g, loose) && l in h.tags && r in h.tags && h.tags[l].right == r && l in loose && r in loose
    ensures Inv(h.(tags := Merge(h.tags, l, r)), g, loose - {r})
  {
    var tags := h.tags;
    assert Placed(tags, g, l) && Placed(tags, g, r);
    if tags[r].right != 0 { assert Placed(tags, g, tags[r].right); }
    assert 0 !in tags;
    MergeTiled(tags, g, l, r);
    MergeListed(h, g, l, r);
    MergeLoose(tags, l, r, loose);
    MergeFields(tags, l, r);
    forall b | 0 <= b < MAXEXP
      ensures Whole(Merge(tags, l, r), b) == Whole(tags, b)
    {
      MergeWhole(tags, l, r, b);
    }
    hide Tiled, Listed, NoTwoFree, Whole, Merge;
  }

  // ---- Splitting the tag in hand ----

  lemma {:induction false} SplitFields(tags: map<nat, Tag>, t: nat)
    requires t in tags && TAG_SIZE + tags[t].size <= tags[t].realSize && 0 !in tags
    requires t + TAG_SIZE + tags[t].size !in tags && tags[t].right != t
    ensures Split(tags, t).Keys == tags.Keys + {t + TAG_SIZE + tags[t].size}
    ensures forall u <- tags :: var a, b := tags[u], Split(tags, t)[u];
      b.size == a.size && b.index == a.index && b.next == a.next && b.prev == a.prev &&
      b.realSize == (if u == t then TAG_SIZE + a.size else a.realSize) &&
      b.left == (if u == tags[t].right then t + TAG_SIZE + tags[t].size else a.left) &&
      b.right == (if u == t then t + TAG_SIZE + tags[t].size else a.right)
    ensures Split(tags, t)[t + TAG_SIZE + tags[t].size] ==
            Tag(0, tags[t].realSize - TAG_SIZE - tags[t].size, -1, t, tags[t].right, 0, 0)
  {
  }

  function SplitGhosts(g: Ghosts, t: nat, n: nat): Ghosts {
    if t in g.home then g.(home := g.home[n := g.home[t]]) else g
  }

  lemma {:induction false} SplitPlaced(tags: map<nat, Tag>, g: Ghosts, t: nat, u: nat)
    requires t in tags && 2 * TAG_SIZE + tags[t].size <= tags[t].realSize && 0 !in tags
    requires t + TAG_SIZE + tags[t].size !in tags && Placed(tags, g, t) && tags[t].right in tags + map[0 := tags[t]]
    requires tags[t].right != 0 ==> Placed(tags, g, tags[t].right)
    requires u in tags && Placed(tags, g, u)
    ensures u in Split(tags, t)
    ensures Placed(Split(tags, t), SplitGhosts(g, t, t + TAG_SIZE + tags[t].size), u)
  {
    SplitFields(tags, t);
    hide Split;
  }

  lemma {:induction false} SplitNewPlaced(tags: map<nat, Tag>, g: Ghosts, t: nat)
    requires t in tags && 2 * TAG_SIZE + tags[t].size <= tags[t].realSize && 0 !in tags
    requires t + TAG_SIZE + tags[t].size !in tags && Placed(tags, g, t)
    requires tags[t].right != 0 ==> Placed(tags, g, tags[t].right)
    ensures t + TAG_SIZE + tags[t].size in Split(tags, t)
    ensures Placed(Split(tags, t), SplitGhosts(g, t, t + TAG_SIZE + tags[t].size), t + TAG_SIZE + tags[t].size)
  {
    SplitFields(tags, t);
    hide Split;
  }

  /** No tag starts inside another. */
  lemma {:induction false} NothingInside(tags: map<nat, Tag>, t: nat, n: nat)
    requires Apart(tags) && t in tags && t < n < t + tags[t].realSize
    ensures n !in tags
  {
  }

  lemma {:induction false} SplitApart(tags: map<nat, Tag>, t: nat)
    requires Apart(tags) && t in tags && 2 * TAG_SIZE + tags[t].size <= tags[t].realSize && 0 !in tags
    requires t + TAG_SIZE + tags[t].size !in tags && tags[t].right != t
    ensures Apart(Split(tags, t))
  {
    SplitFields(tags, t);
    hide Split;
    var tags', n := Split(tags, t), t + TAG_SIZE + tags[t].size;
    forall a, b | a in tags' && b in tags' && a < b
      ensures a + tags'[a].realSize <= b
    {
      if a == n {
        assert b in tags && t < b && t + tags[t].realSize <= b;
      } else if b == n {
        assert a <= t;
      } else {
        assert a + tags[a].realSize <= b;
      }
    }
  }

  lemma {:induction false} SplitAllPlaced(tags: map<nat, Tag>, g: Ghosts, t: nat)
    requires AllPlaced(tags, g) && t in tags && 2 * TAG_SIZE + tags[t].size <= tags[t].realSize && 0 !in tags
    requires t + TAG_SIZE + tags[t].size !in tags && tags[t].right != t && tags[t].right in tags + map[0 := tags[t]]
    ensures AllPlaced(Split(tags, t), SplitGhosts(g, t, t + TAG_SIZE + tags[t].size))
  {
    var n := t + TAG_SIZE + tags[t].size;
    forall u | u in Split(tags, t)
      ensures Placed(Split(tags, t), SplitGhosts(g, t, n), u)
    {
      SplitFields(tags, t);
      assert Placed(tags, g, t);
      if tags[t].right != 0 { assert Placed(tags, g, tags[t].right); }
      if u != n {
        assert Placed(tags, g, u);
        hide Placed, Split;
        SplitPlaced(tags, g, t, u);
      } else {
        hide Placed, Split;
        SplitNewPlaced(tags, g, t);
      }
    }
  }

  lemma {:induction false} SplitTiled(tags: map<nat, Tag>, g: Ghosts, t: nat)
    requires Tiled(tags, g) && t in tags && 2 * TAG_SIZE + tags[t].size <= tags[t].realSize && 0 !in tags
    ensures t + TAG_SIZE + tags[t].size !in tags
    ensures Tiled(Split(tags, t), SplitGhosts(g, t, t + TAG_SIZE + tags[t].size))
  {
    var n := t + TAG_SIZE + tags[t].size;
    NothingInside(tags, t, n);
    hide Apart;
    assert Placed(tags, g, t);
    SplitFields(tags, t);
    SplitApart(tags, t);
    SplitAllPlaced(tags, g, t);
    hide Split, AllPlaced, Placed;
  }

  lemma {:induction false} SplitListed(h: Heap, g: Ghosts, t: nat)
    requires Listed(h, g) && t in h.tags && TAG_SIZE + h.tags[t].size <= h.tags[t].realSize && h.tags[t].index < 0
    requires t + TAG_SIZE + h.tags[t].size !in h.tags && h.tags[t].right != t
    ensures Listed(h.(tags := Split(h.tags, t)), SplitGhosts(g, t, t + TAG_SIZE + h.tags[t].size))
  {
    SplitFields(h.tags, t);
    var h' := h.(tags := Split(h.tags, t));
    hide Split, Bin;
    forall u <- h'.tags
      ensures Binned(h', SplitGhosts(g, t, t + TAG_SIZE + h.tags[t].size), u)
    {
      if u in h.tags {
        assert Binned(h, g, u);
      }
    }
  }

  lemma {:induction false} SplitLoose(tags: map<nat, Tag>, t: nat, loose: set<nat>)
    requires t in tags && TAG_SIZE + tags[t].size <= tags[t].realSize && 0 !in tags && tags[t].index < 0
    requires t + TAG_SIZE + tags[t].size !in tags && tags[t].right != t
    requires NoTwoFree(tags) && Paid(tags, loose)
    ensures NoTwoFree(Split(tags, t)) && Paid(Split(tags, t), loose - {t} + {t + TAG_SIZE + tags[t].size})
  {
    SplitFields(tags, t);
    hide Split;
  }

  lemma {:induction false} SplitWhole(tags: map<nat, Tag>, t: nat, b: int)
    requires t in tags && TAG_SIZE + tags[t].size <= tags[t].realSize && 0 !in tags && tags[t].index < 0
    requires t + TAG_SIZE + tags[t].size !in tags && tags[t].right != t && b >= 0
    requires tags[t].right != 0 ==> tags[t].right in tags && tags[tags[t].right].left != 0
    ensures Whole(Split(tags, t), b) == Whole(tags, b)
  {
    SplitFields(tags, t);
    hide Split;
  }

  lemma {:induction false} SplitCounted(h: Heap, g: Ghosts, t: nat)
    requires Counted(h) && t in h.tags && TAG_SIZE + h.tags[t].size <= h.tags[t].realSize && 0 !in h.tags &&
      h.tags[t].index < 0
    requires t + TAG_SIZE + h.tags[t].size !in h.tags && Placed(h.tags, g, t)
    ensures Counted(h.(tags := Split(h.tags, t)))
  {
    forall b | 0 <= b < MAXEXP
      ensures Whole(Split(h.tags, t), b) == Whole(h.tags, b)
    {
      SplitWhole(h.tags, t, b);
    }
    hide Whole, Split;
  }

  /** The tag in hand keeps what it needs, and its remainder comes to hand instead. */
  lemma {:induction false} SplitKeeps(h: Heap, g: Ghosts, t: nat)
    requires Inv(h, g, {t}) && t in h.tags && 2 * TAG_SIZE + h.tags[t].size <= h.tags[t].realSize
    ensures var n := t + TAG_SIZE + h.tags[t].size;
      n !in h.tags && Inv(h.(tags := Split(h.tags, t)), SplitGhosts(g, t, n), {n})
  {
    hide NoTwoFree, Paid, Counted, Tiled, Listed, Split, Placed;
    var tags := h.tags;
    assert t in {t};
    Standing(h, g, t);
    SplitTiled(tags, g, t);
    SplitFields(tags, t);
    SplitListed(h, g, t);
    SplitLoose(tags, t, {t});
    SplitCounted(h, g, t);
    assert {t} - {t} + {t + TAG_SIZE + tags[t].size} == {t + TAG_SIZE + tags[t].size};
  }

  lemma {:induction false} Standing(h: Heap, g: Ghosts, t: nat)
    requires Tiled(h.tags, g) && Listed(h, g) && t in h.tags
    ensures 0 !in h.tags && Placed(h.tags, g, t) && h.tags[t].right != t
  {
    assert Placed(h.tags, g, t);
  }

  // ---- Putting the tag in hand into its bin ----

  /** insert_tag, after free has counted the tag if it is whole. */
  function Put(h: Heap, t: nat, b: nat): Heap
    requires t in h.tags && b < |h.freePages| && |h.completePages| == |h.freePages|
  {
    var h' := if IsWhole(h.tags, t) then h.(completePages := h.completePages[b := h.completePages[b] + 1]) else h;
    Insert(h', t, b)
  }

  function Stamped(g: Ghosts, t: nat): Ghosts {
    g.(stamp := g.stamp[t := g.clock], clock := g.clock + 1)
  }

  lemma {:induction false} PutFields(h: Heap, t: nat, b: nat)
    requires t in h.tags && b < |h.freePages| && |h.completePages| == |h.freePages| && h.freePages[b] != t &&
      0 !in h.tags
    requires h.freePages[b] != 0 ==> h.freePages[b] in h.tags
    ensures Put(h, t, b).tags.Keys == h.tags.Keys && Put(h, t, b).freePages == h.freePages[b := t]
    ensures forall u <- h.tags :: var x, y := h.tags[u], Put(h, t, b).tags[u];
      y.size == x.size && y.realSize == x.realSize && y.left == x.left && y.right == x.right &&
      y.index == (if u == t then b else x.index) &&
      y.next == (if u == t && h.freePages[b] != 0 then h.freePages[b] else x.next) &&
      y.prev == (if u == h.freePages[b] then t else x.prev)
  {
  }

  lemma {:induction false} PutBinned(h: Heap, g: Ghosts, t: nat, b: nat, u: nat)
    requires Listed(h, g) && t in h.tags && h.tags[t].index < 0 && h.tags[t].realSize >= TAG_SIZE &&
      b == Bin(h.tags[t].realSize)
    requires |h.completePages| == |h.freePages| && u in h.tags && Binned(h, g, u) && Binned(h, g, t)
    requires h.freePages[b] != 0 ==> h.freePages[b] in h.tags && Binned(h, g, h.freePages[b])
    ensures u in Put(h, t, b).tags
    ensures Binned(Put(h, t, b), Stamped(g, t), u)
  {
    hide Bin;
    if h.tags[u].index >= 0 {
      NeighboursBinned(h, g, u);
    }
    PutFields(h, t, b);
    hide Put, Listed;
  }

  lemma {:induction false} PutListed(h: Heap, g: Ghosts, t: nat, b: nat)
    requires Listed(h, g) && t in h.tags && h.tags[t].index < 0 && h.tags[t].realSize >= TAG_SIZE &&
      b == Bin(h.tags[t].realSize)
    requires |h.completePages| == |h.freePages|
    ensures Listed(Put(h, t, b), Stamped(g, t))
  {
    assert Binned(h, g, t);
    if h.freePages[b] != 0 { assert Binned(h, g, h.freePages[b]); }
    PutFields(h, t, b);
    hide Binned, Bin, Put;
    forall u | u in h.tags
      ensures Binned(Put(h, t, b), Stamped(g, t), u)
    {
      assert Binned(h, g, u);
      PutBinned(h, g, t, b, u);
    }
  }

  lemma {:induction false} PutWhole(h: Heap, t: nat, b: nat, c: int)
    requires t in h.tags && b < |h.freePages| && |h.completePages| == |h.freePages| && h.freePages[b] != t &&
      0 !in h.tags
    requires h.freePages[b] != 0 ==> h.freePages[b] in h.tags
    requires h.tags[t].index < 0 && c >= 0
    ensures Whole(Put(h, t, b).tags, c) ==
      if c == b && IsWhole(h.tags, t) then Whole(h.tags, c) + {t} else Whole(h.tags, c)
    ensures t !in Whole(h.tags, c)
  {
    PutFields(h, t, b);
    hide Put;
  }

  lemma {:induction false} PutCounted(h: Heap, t: nat, b: nat)
    requires Counted(h) && |h.freePages| == MAXEXP && t in h.tags && b < MAXEXP && h.freePages[b] != t && 0 !in h.tags
    requires h.freePages[b] != 0 ==> h.freePages[b] in h.tags
    requires h.tags[t].index < 0
    ensures Counted(Put(h, t, b))
  {
    forall c | 0 <= c < MAXEXP
      ensures Put(h, t, b).completePages[c] == |Whole(Put(h, t, b).tags, c)|
    {
      PutWhole(h, t, b, c);
    }
  }

  lemma {:induction false} PutLoose(h: Heap, t: nat, b: nat, loose: set<nat>)
    requires t in h.tags && b < |h.freePages| && |h.completePages| == |h.freePages| && h.freePages[b] != t &&
      0 !in h.tags
    requires h.freePages[b] != 0 ==> h.freePages[b] in h.tags
    requires NoTwoFree(h.tags) && Paid(h.tags, loose) && h.tags[t].index < 0 && h.tags[t].right != t
    requires h.tags[t].right in h.tags ==> h.tags[h.tags[t].right].index < 0
    requires forall u <- h.tags | h.tags[u].right == t :: h.tags[u].index < 0
    ensures NoTwoFree(Put(h, t, b).tags) && Paid(Put(h, t, b).tags, loose - {t})
  {
    PutFields(h, t, b);
    hide Put;
  }

  /** A tag in hand whose neighbours are both in use goes into its bin, and the heap is good again. */
  lemma {:induction false} PutKeeps(h: Heap, g: Ghosts, t: nat)
    requires Inv(h, g, {t}) && t in h.tags && h.tags[t].realSize >= TAG_SIZE
    requires h.tags[t].left in h.tags ==> h.tags[h.tags[t].left].index < 0
    requires h.tags[t].right in h.tags ==> h.tags[h.tags[t].right].index < 0
    ensures Inv(Put(h, t, Bin(h.tags[t].realSize)), Stamped(g, t), {})
  {
    var b := Bin(h.tags[t].realSize);
    assert t in {t} && 0 !in h.tags;
    assert Placed(h.tags, g, t);
    forall u | u in h.tags && h.tags[u].right == t
      ensures h.tags[u].index < 0
    {
      assert Placed(h.tags, g, u);
    }
    hide Tiled, Counted, NoTwoFree, Paid, Bin;
    PutFields(h, t, b);
    PutListed(h, g, t, b);
    PutCounted(h, t, b);
    PutLoose(h, t, b, {t});
    hide Listed, Put;
    TiledSame(h.tags, Put(h, t, b).tags, g);
    TiledStamp(Put(h, t, b).tags, g, t);
    assert {t} - {t} == {};
  }

  lemma {:induction false} TiledStamp(tags: map<nat, Tag>, g: Ghosts, t: nat)
    requires Tiled(tags, g)
    ensures Tiled(tags, Stamped(g, t))
  {
    forall u | u in tags
      ensures Placed(tags, Stamped(g, t), u)
    {
      assert Placed(tags, g, u);
    }
  }

  // ---- Bringing in a region, and writing a size ----

  function NewTag(size: nat, length: nat): Tag {
    Tag(size, length, -1, 0, 0, 0, 0)
  }

  function Grown(g: Ghosts, base: nat, length: nat): Ghosts {
    g.(regions := g.regions[base := length], home := g.home[base := base])
  }

  ghost predicate ClearOf(g: Ghosts, base: nat, length: nat) {
    forall r <- g.regions :: r + g.regions[r] <= base || base + length <= r
  }

  lemma {:induction false} ClearOfTags(tags: map<nat, Tag>, g: Ghosts, base: nat, length: nat, t: nat)
    requires AllPlaced(tags, g) && ClearOf(g, base, length) && t in tags && length > 0
    ensures t + tags[t].realSize <= base || base + length <= t
    ensures t != base
  {
    assert Placed(tags, g, t);
    assert g.home[t] in g.regions;
  }

  lemma {:induction false} GrowApart(tags: map<nat, Tag>, g: Ghosts, base: nat, length: nat, size: nat)
    requires AllPlaced(tags, g) && Apart(tags) && ClearOf(g, base, length) && 0 < length
    ensures base !in tags && Apart(tags[base := NewTag(size, length)])
  {
    forall t <- tags
      ensures t + tags[t].realSize <= base || base + length <= t
      ensures t != base
    {
      ClearOfTags(tags, g, base, length, t);
    }
  }

  lemma {:induction false} GrowPlaced(tags: map<nat, Tag>, g: Ghosts, base: nat, length: nat, size: nat)
    requires AllPlaced(tags, g) && base !in tags && base !in g.regions && 0 < base && TAG_SIZE <= length && 0 !in tags
    ensures AllPlaced(tags[base := NewTag(size, length)], Grown(g, base, length))
  {
    var tags', g' := tags[base := NewTag(size, length)], Grown(g, base, length);
    forall t | t in tags'
      ensures Placed(tags', g', t)
    {
      if t in tags {
        assert Placed(tags, g, t);
      }
    }
  }

  lemma {:induction false} GrowTiled(tags: map<nat, Tag>, g: Ghosts, base: nat, length: nat, size: nat)
    requires Tiled(tags, g) && ClearOf(g, base, length) && 0 < base && TAG_SIZE <= length && 0 !in tags
    ensures base !in tags && Tiled(tags[base := NewTag(size, length)], Grown(g, base, length))
  {
    hide Apart, AllPlaced;
    GrowApart(tags, g, base, length, size);
    GrowPlaced(tags, g, base, length, size);
  }

  lemma {:induction false} GrowListed(h: Heap, g: Ghosts, base: nat, length: nat, size: nat)
    requires Listed(h, g) && base !in h.tags && 0 < base
    ensures Listed(h.(tags := h.tags[base := NewTag(size, length)]), Grown(g, base, length))
  {
    var h' := h.(tags := h.tags[base := NewTag(size, length)]);
    hide Bin;
    forall t | t in h'.tags
      ensures Binned(h', Grown(g, base, length), t)
    {
      if t in h.tags {
        assert Binned(h, g, t);
      }
    }
  }

  /** A region from liballoc_alloc comes to hand as one tag. */
  lemma {:induction false} GrowKeeps(h: Heap, g: Ghosts, base: nat, length: nat, size: nat)
    requires Inv(h, g, {}) && ClearOf(g, base, length) && 0 < base && TAG_SIZE <= length
    ensures base !in h.tags
    ensures Inv(h.(tags := h.tags[base := NewTag(size, length)]), Grown(g, base, length), {base})
  {
    GrowTiled(h.tags, g, base, length, size);
    hide Tiled;
    GrowListed(h, g, base, length, size);
    hide Listed;
    forall b | 0 <= b < MAXEXP
      ensures Whole(h.tags[base := NewTag(size, length)], b) == Whole(h.tags, b)
    {
    }
  }

  lemma {:induction false} SizeKeeps(h: Heap, g: Ghosts, t: nat, size: nat)
    requires Inv(h, g, {t}) && t in h.tags
    ensures Inv(h.(tags := h.tags[t := h.tags[t].(size := size)]), g, {t})
  {
    hide Tiled, Listed, Counted, NoTwoFree;
    var h' := h.(tags := h.tags[t := h.tags[t].(size := size)]);
    TiledSame(h.tags, h'.tags, g);
    SizeListed(h, g, t, size);
    SizeLoose(h.tags, t, size);
    SizeCounted(h, t, size);
  }

  lemma {:induction false} SizeListed(h: Heap, g: Ghosts, t: nat, size: nat)
    requires Listed(h, g) && t in h.tags
    ensures Listed(h.(tags := h.tags[t := h.tags[t].(size := size)]), g)
  {
    hide Bin;
    var h' := h.(tags := h.tags[t := h.tags[t].(size := size)]);
    forall u | u in h'.tags
      ensures Binned(h', g, u)
    {
      assert Binned(h, g, u);
    }
  }

  lemma {:induction false} SizeLoose(tags: map<nat, Tag>, t: nat, size: nat)
    requires NoTwoFree(tags) && t in tags
    ensures NoTwoFree(tags[t := tags[t].(size := size)])
  {
  }

  lemma {:induction false} SizeCounted(h: Heap, t: nat, size: nat)
    requires Counted(h) && t in h.tags
    ensures Counted(h.(tags := h.tags[t := h.tags[t].(size := size)]))
  {
    var h' := h.(tags := h.tags[t := h.tags[t].(size := size)]);
    forall b | 0 <= b < MAXEXP
      ensures Whole(h'.tags, b) == Whole(h.tags, b)
    {
    }
    hide Whole;
  }

  // ---- melt_left joins first and unlinks afterwards ----

  /** Unlinking the swallowing tag after the merge comes to the same as unlinking it before. */
  lemma {:induction false} MeltOrder(h: Heap, g: Ghosts, l: nat, r: nat)
    requires Listed(h, g) && l in h.tags && r in h.tags && l != r && h.tags[l].index >= 0 && h.tags[r].index < 0
    requires h.tags[l].index < MAXEXP && h.tags[l].right == r && h.tags[r].right != l && h.tags[r].right != r
    ensures l in Merge(h.tags, l, r) && r in Remove(h, l).tags
    ensures Remove(h.(tags := Merge(h.tags, l, r)), l) == Remove(h, l).(tags := Merge(Remove(h, l).tags, l, r))
  {
    assert Binned(h, g, l);
    NeighboursBinned(h, g, l);
    assert 0 !in h.tags && |h.freePages| == MAXEXP;
    hide Binned, Listed;
    var h1, h2 := h.(tags := Merge(h.tags, l, r)), Remove(h, l);
    MergeField(h.tags, l, r, l);
    RemoveField(h, l, r);
    RemoveField(h, l, l);
    MergeField(h2.tags, l, r, l);
    RemoveField(h1, l, l);
    hide Merge;
    RemoveFields(h, l);
    RemoveFields(h1, l);
    hide Remove;
    assert Remove(h1, l).tags == Merge(h2.tags, l, r) by {
      forall u | u in h.tags && u != r
        ensures Remove(h1, l).tags[u] == Merge(h2.tags, l, r)[u]
      {
        MergeField(h.tags, l, r, u);
        RemoveField(h, l, u);
        MergeField(h2.tags, l, r, u);
        RemoveField(h1, l, u);
      }
    }
  }

  lemma {:induction false} MergeField(tags: map<nat, Tag>, l: nat, r: nat, u: nat)
    requires l in tags && r in tags && l != r && 0 !in tags && tags[r].right != l && tags[r].right != r && u in tags &&
      u != r
    ensures u in Merge(tags, l, r) && Merge(tags, l, r).Keys == tags.Keys - {r}
    ensures var a, b := tags[u], Merge(tags, l, r)[u];
      b.size == a.size && b.index == a.index && b.next == a.next && b.prev == a.prev &&
      b.realSize == (if u == l then a.realSize + tags[r].realSize else a.realSize) &&
      b.left == (if u == tags[r].right then l else a.left) &&
      b.right == (if u == l then tags[r].right else a.right)
  {
  }

  // ---- The two ways free makes a tag grow ----

  /** The pointers of a free tag that remove_tag follows lead to tags other than itself. */
  predicate Unlinkable(h: Heap, t: nat) {
    t in h.tags && |h.freePages| == MAXEXP && 0 <= h.tags[t].index < MAXEXP && 0 !in h.tags &&
    h.tags[t].next != t && h.tags[t].prev != t &&
    (h.tags[t].next != 0 ==> h.tags[t].next in h.tags) && (h.tags[t].prev != 0 ==> h.tags[t].prev in h.tags)
  }

  /** `l` and `r` are neighbours, and what lies right of `r` is neither of them. */
  predicate Joinable(tags: map<nat, Tag>, l: nat, r: nat) {
    l in tags && r in tags && l != r && 0 !in tags && tags[l].right == r && tags[r].left == l &&
    tags[r].right != l && tags[r].right != r && (tags[r].right != 0 ==> tags[r].right in tags)
  }

  /** absorb_right. */
  function Absorbed(h: Heap, t: nat): Heap
    requires t in h.tags && Unlinkable(h, h.tags[t].right)
  {
    var right := h.tags[t].right;
    var h' := Remove(h, right);
    h'.(tags := Merge(h'.tags, t, right))
  }

  /** melt_left, and the remove_tag that follows it. */
  function Melted(h: Heap, t: nat): Heap
    requires t in h.tags && Unlinkable(h, h.tags[t].left) && Joinable(h.tags, h.tags[t].left, t)
  {
    var left := h.tags[t].left;
    assert left in Merge(h.tags, left, t);
    Remove(h.(tags := Merge(h.tags, left, t)), left)
  }

  /** The grown tag spans both, keeps its outer neighbours, and all other tags keep size and index. */
  ghost predicate Joined(tags: map<nat, Tag>, tags': map<nat, Tag>, l: nat, r: nat)
    requires l in tags && r in tags
  {
    l in tags' && tags'.Keys == tags.Keys - {r} && tags'[l].left == tags[l].left && tags'[l].right == tags[r].right &&
    tags'[l].realSize == tags[l].realSize + tags[r].realSize && tags'[l].index < 0 &&
    forall u <- tags' :: tags'[u].size == tags[u].size && (u != l ==> tags'[u].index == tags[u].index)
  }

  lemma {:induction false} FreeTagUnlinkable(h: Heap, g: Ghosts, t: nat)
    requires Listed(h, g) && t in h.tags && h.tags[t].index >= 0
    ensures Unlinkable(h, t) && Binned(h, g, t)
  {
    BinInRange(h, g, t);
    NeighboursBinned(h, g, t);
    hide Bin;
  }

  lemma {:induction false} NeighboursJoinable(tags: map<nat, Tag>, g: Ghosts, l: nat, r: nat)
    requires AllPlaced(tags, g) && 0 !in tags && l in tags && r in tags && (tags[l].right == r || tags[r].left == l)
    ensures Joinable(tags, l, r)
  {
    assert Placed(tags, g, l) && Placed(tags, g, r);
    if tags[r].right != 0 { assert Placed(tags, g, tags[r].right); }
  }

  lemma {:induction false} TakeIsRemove(h: Heap, t: nat)
    requires t in h.tags && 0 <= h.tags[t].index < |h.freePages| && |h.completePages| == |h.freePages| &&
      !IsWhole(h.tags, t)
    ensures Take(h, t) == Remove(h, t)
  {
  }

  /** Unlinking a tag from its bin moves no neighbour. */
  lemma {:induction false} StillJoinable(h: Heap, x: nat, l: nat, r: nat)
    requires Unlinkable(h, x) && Joinable(h.tags, l, r)
    ensures Joinable(Remove(h, x).tags, l, r)
  {
    RemoveFields(h, x);
    hide Remove;
  }

  /** Neighbour pointers lead to tags; bin heads are free tags. */
  lemma {:induction false} Pointers(h: Heap, g: Ghosts, loose: set<nat>, t: nat)
    requires Inv(h, g, loose) && t in h.tags
    ensures 0 !in h.tags && |h.freePages| == |h.completePages| == MAXEXP && h.tags[t].realSize >= TAG_SIZE
    ensures h.tags[t].left == 0 ||
      (h.tags[t].left in h.tags && h.tags[h.tags[t].left].right == t &&
      t == h.tags[t].left + h.tags[h.tags[t].left].realSize)
    ensures h.tags[t].right == 0 ||
      (h.tags[t].right in h.tags && h.tags[h.tags[t].right].left == t && h.tags[t].right == t + h.tags[t].realSize)
    ensures forall b | 0 <= b < MAXEXP && h.freePages[b] != 0 ::
      h.freePages[b] in h.tags && h.tags[h.freePages[b]].index == b
    ensures t in loose ==> h.tags[t].index < 0
    ensures AllPlaced(h.tags, g) && Listed(h, g)
  {
    assert Placed(h.tags, g, t);
    if h.tags[t].left != 0 { assert Placed(h.tags, g, h.tags[t].left); }
    hide Bin, Binned;
  }

  lemma {:induction false} AbsorbStep(h: Heap, g: Ghosts, t: nat)
    requires Inv(h, g, {t}) && t in h.tags && h.tags[t].right in h.tags && h.tags[h.tags[t].right].index >= 0
    ensures Unlinkable(h, h.tags[t].right) && Joinable(h.tags, t, h.tags[t].right)
    ensures Inv(Absorbed(h, t), g, {t}) && Joined(h.tags, Absorbed(h, t).tags, t, h.tags[t].right)
  {
    hide Inv, Listed, AllPlaced, Binned;
    var r := h.tags[t].right;
    Pointers(h, g, {t}, t);
    FreeTagUnlinkable(h, g, r);
    NeighboursJoinable(h.tags, g, t, r);
    StillJoinable(h, r, t, r);
    TakeIsRemove(h, r);
    TakeKeeps(h, g, r, {t});
    RemoveFields(h, r);
    assert {t} + {r} == {t, r} && {t, r} - {r} == {t};
    hide Take;
    MergeKeeps(Remove(h, r), g, t, r, {t, r});
    MergeFields(Remove(h, r).tags, t, r);
    hide Remove, Merge;
  }

  lemma {:induction false} MeltStep(h: Heap, g: Ghosts, t: nat)
    requires Inv(h, g, {t}) && t in h.tags && h.tags[t].left in h.tags && h.tags[h.tags[t].left].index >= 0
    ensures Unlinkable(h, h.tags[t].left) && Joinable(h.tags, h.tags[t].left, t)
    ensures Unlinkable(h.(tags := Merge(h.tags, h.tags[t].left, t)), h.tags[t].left)
    ensures Inv(Melted(h, t), g, {h.tags[t].left}) && Joined(h.tags, Melted(h, t).tags, h.tags[t].left, t)
  {
    hide Inv, Listed, AllPlaced, Binned;
    var l := h.tags[t].left;
    Pointers(h, g, {t}, t);
    FreeTagUnlinkable(h, g, l);
    NeighboursJoinable(h.tags, g, l, t);
    StillJoinable(h, l, l, t);
    StillUnlinkable(h, g, l, t);
    TakeIsRemove(h, l);
    TakeKeeps(h, g, l, {t});
    RemoveFields(h, l);
    MeltOrder(h, g, l, t);
    assert {t} + {l} == {t, l} && {t, l} - {t} == {l};
    hide Take;
    MergeKeeps(Remove(h, l), g, l, t, {t, l});
    MergeFields(Remove(h, l).tags, l, t);
    hide Remove, Merge;
  }

  lemma {:induction false} StillUnlinkable(h: Heap, g: Ghosts, l: nat, r: nat)
    requires Listed(h, g) && Unlinkable(h, l) && Joinable(h.tags, l, r) && h.tags[r].index < 0
    ensures Unlinkable(h.(tags := Merge(h.tags, l, r)), l)
  {
    assert Binned(h, g, l);
    NeighboursBinned(h, g, l);
    hide Bin;
    MergeFields(h.tags, l, r);
    hide Merge;
  }
}
