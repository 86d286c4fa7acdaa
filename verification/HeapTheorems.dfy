/**
 What the tag-by-tag invariant means for whole regions, whole bins and the blocks in use.
 */
module HeapTheorems {
  import opened HeapSteps
  import opened HeapTags
  import opened Powers

  /** The neighbour chain from `t` to the end of its region. */
  ghost function Chain(tags: map<nat, Tag>, g: Ghosts, t: nat): seq<nat>
    requires AllPlaced(tags, g) && 0 !in tags && (t == 0 || t in tags)
    decreases if t in tags && t in g.home && g.home[t] in g.regions then g.home[t] + g.regions[g.home[t]] - t else 0
  {
    if t == 0 then []
    else
      assert Placed(tags, g, t);
      assert tags[t].right != 0 ==> Placed(tags, g, tags[t].right);
      [t] + Chain(tags, g, tags[t].right)
  }

  ghost function Total(tags: map<nat, Tag>, chain: seq<nat>): nat
    requires forall t <- chain :: t in tags
  {
    if chain == [] then 0 else tags[chain[0]].realSize + Total(tags, chain[1..])
  }

  /** A chain runs to the end of its region without gap or overlap. */
  lemma {:induction false} ChainTiles(tags: map<nat, Tag>, g: Ghosts, t: nat)
    requires AllPlaced(tags, g) && 0 !in tags && t in tags
    ensures t in g.home && g.home[t] in g.regions
    ensures forall u <- Chain(tags, g, t) :: u in tags && u in g.home && g.home[u] == g.home[t] && t <= u
    ensures t + Total(tags, Chain(tags, g, t)) == g.home[t] + g.regions[g.home[t]]
    ensures forall i | 0 <= i < |Chain(tags, g, t)| - 1 ::
              Chain(tags, g, t)[i + 1] == Chain(tags, g, t)[i] + tags[Chain(tags, g, t)[i]].realSize
    ensures Chain(tags, g, t) != [] && Chain(tags, g, t)[0] == t
    decreases if t in g.home && g.home[t] in g.regions then g.home[t] + g.regions[g.home[t]] - t else 0
  {
    assert Placed(tags, g, t);
    var right := tags[t].right;
    if right != 0 {
      assert Placed(tags, g, right);
      ChainTiles(tags, g, right);
    }
    assert Chain(tags, g, t)[1..] == Chain(tags, g, right);
  }

  /** Every tag of the region at or after `t` is on the chain from `t`. */
  lemma {:induction false} ChainReaches(tags: map<nat, Tag>, g: Ghosts, t: nat, u: nat)
    requires AllPlaced(tags, g) && Apart(tags) && 0 !in tags && t in tags && u in tags
    requires t in g.home && u in g.home && g.home[t] == g.home[u] && t <= u
    ensures u in Chain(tags, g, t)
    decreases u - t
  {
    assert Placed(tags, g, t) && Placed(tags, g, u);
    if t < u {
      assert t + tags[t].realSize <= u;
      assert tags[t].right != 0;
      ChainReaches(tags, g, tags[t].right, u);
    }
  }

  /** Each region is tiled by its chain: the sizes add up to the region, tags abut, and no tag of it is left out. */
  lemma {:induction false} RegionTiled(h: Heap, g: Ghosts, loose: set<nat>, base: nat)
    requires Inv(h, g, loose) && base in g.regions
    ensures base in h.tags
    ensures forall u :: u in Chain(h.tags, g, base) <==> u in h.tags && u in g.home && g.home[u] == base
    ensures Total(h.tags, Chain(h.tags, g, base)) == g.regions[base]
    ensures forall i | 0 <= i < |Chain(h.tags, g, base)| - 1 ::
              Chain(h.tags, g, base)[i + 1] == Chain(h.tags, g, base)[i] + h.tags[Chain(h.tags, g, base)[i]].realSize
  {
    ChainTiles(h.tags, g, base);
    forall u | u in h.tags && u in g.home && g.home[u] == base
      ensures u in Chain(h.tags, g, base)
    {
      assert Placed(h.tags, g, u);
      ChainReaches(h.tags, g, base, u);
    }
  }

  /** The free list from `t` on. */
  ghost function BinList(h: Heap, g: Ghosts, t: nat): seq<nat>
    requires Listed(h, g) && (t == 0 || (t in h.tags && h.tags[t].index >= 0))
    decreases if t != 0 && t in g.stamp then g.stamp[t] + 1 else 0
  {
    if t == 0 then []
    else
      assert Binned(h, g, t);
      [t] + BinList(h, g, h.tags[t].next)
  }

  lemma {:induction false} BinListMembers(h: Heap, g: Ghosts, t: nat)
    requires Listed(h, g) && (t == 0 || (t in h.tags && h.tags[t].index >= 0))
    ensures forall u <- BinList(h, g, t) ::
      u in h.tags && t in h.tags && h.tags[u].index == h.tags[t].index && u in g.stamp && t in g.stamp &&
      g.stamp[u] <= g.stamp[t]
    ensures forall i, j | 0 <= i < j < |BinList(h, g, t)| :: BinList(h, g, t)[i] != BinList(h, g, t)[j]
    ensures forall i | 0 <= i < |BinList(h, g, t)| - 1 :: h.tags[BinList(h, g, t)[i]].next == BinList(h, g, t)[i + 1]
    ensures forall i | 0 <= i < |BinList(h, g, t)| - 1 :: h.tags[BinList(h, g, t)[i + 1]].prev == BinList(h, g, t)[i]
    decreases if t != 0 && t in g.stamp then g.stamp[t] + 1 else 0
  {
    if t != 0 {
      assert Binned(h, g, t);
      var next := h.tags[t].next;
      BinListMembers(h, g, next);
      var list, rest := BinList(h, g, t), BinList(h, g, next);
      assert list == [t] + rest;
      forall j | 0 <= j < |rest|
        ensures rest[j] != t
      {
        assert g.stamp[rest[j]] <= g.stamp[next];
      }
    }
  }

  /** What is on the list stays on it one step further. */
  lemma {:induction false} BinListNext(h: Heap, g: Ghosts, t: nat, u: nat)
    requires Listed(h, g) && t in h.tags && h.tags[t].index >= 0 && u in BinList(h, g, t)
    ensures u in h.tags && (h.tags[u].next != 0 ==> h.tags[u].next in BinList(h, g, t))
    decreases if t != 0 && t in g.stamp then g.stamp[t] + 1 else 0
  {
    assert Binned(h, g, t);
    if u != t {
      BinListNext(h, g, h.tags[t].next, u);
    } else if h.tags[t].next != 0 {
      assert BinList(h, g, h.tags[t].next)[0] == h.tags[t].next;
    }
  }

  lemma {:induction false} BinListReaches(h: Heap, g: Ghosts, u: nat)
    requires Listed(h, g) && u in h.tags && h.tags[u].index >= 0
    ensures h.tags[u].index < MAXEXP && h.freePages[h.tags[u].index] != 0
    ensures u in BinList(h, g, h.freePages[h.tags[u].index])
    decreases if u in g.stamp then g.clock - g.stamp[u] else 0
  {
    assert Binned(h, g, u);
    var v := h.tags[u].prev;
    if v != 0 {
      assert Binned(h, g, v);
      BinListReaches(h, g, v);
      BinListNext(h, g, h.freePages[h.tags[u].index], v);
    } else {
      assert BinList(h, g, u)[0] == u;
    }
  }

  /** Each bin is an acyclic doubly linked list of exactly the tags that carry its index, and each of those has a
      payload in the bin's power-of-two range. */
  lemma {:induction false} BinExact(h: Heap, g: Ghosts, loose: set<nat>, b: nat)
    requires Inv(h, g, loose) && b < MAXEXP
    ensures forall u :: u in BinList(h, g, h.freePages[b]) <==> u in h.tags && h.tags[u].index == b
    ensures forall i, j | 0 <= i < j < |BinList(h, g, h.freePages[b])| ::
      BinList(h, g, h.freePages[b])[i] != BinList(h, g, h.freePages[b])[j]
    ensures forall u <- BinList(h, g, h.freePages[b]) | 256 <= h.tags[u].realSize - TAG_SIZE < 0x8000_0000 ::
              Pow2(b) <= h.tags[u].realSize - TAG_SIZE < Pow2(b + 1)
  {
    if h.freePages[b] != 0 {
      BinListMembers(h, g, h.freePages[b]);
    }
    forall u | u in h.tags && h.tags[u].index == b
      ensures u in BinList(h, g, h.freePages[b])
      ensures 256 <= h.tags[u].realSize - TAG_SIZE < 0x8000_0000 ==>
        Pow2(b) <= h.tags[u].realSize - TAG_SIZE < Pow2(b + 1)
    {
      assert Binned(h, g, u);
      BinListReaches(h, g, u);
      if 256 <= h.tags[u].realSize - TAG_SIZE < 0x8000_0000 {
        GetExpBrackets(h.tags[u].realSize - TAG_SIZE);
      }
    }
  }

  /** Blocks in use share no byte with one another or with any tag. */
  lemma {:induction false} BlocksDisjoint(h: Heap, g: Ghosts, t: nat, u: nat)
    requires Inv(h, g, {}) && t in h.tags && u in h.tags && h.tags[t].index < 0 && t != u
    ensures var start, end := t + TAG_SIZE, t + TAG_SIZE + h.tags[t].size;
      (end <= u || u + TAG_SIZE <= start) &&
      (h.tags[u].index < 0 ==> end <= u + TAG_SIZE || u + TAG_SIZE + h.tags[u].size <= start)
  {
    assert Placed(h.tags, g, u) && Placed(h.tags, g, t);
  }

  /** With nothing in use, each region is one free tag over its whole length, counted in its bin. */
  lemma {:induction false} AllFree(h: Heap, g: Ghosts, base: nat)
    requires Inv(h, g, {}) && base in g.regions
    requires forall t <- h.tags :: h.tags[t].index >= 0
    ensures base in h.tags && h.tags[base].realSize == g.regions[base]
    ensures forall t <- h.tags | t in g.home && g.home[t] == base :: t == base
    ensures base in Whole(h.tags, h.tags[base].index)
  {
    assert Placed(h.tags, g, base);
    if h.tags[base].right != 0 {
      assert false;
    }
    forall t <- h.tags | t in g.home && g.home[t] == base
      ensures t == base
    {
      assert Placed(h.tags, g, t);
    }
  }

  // ---- When the tag free ends with is a whole region ----

  /** No other tag of the region is in use. */
  ghost predicate LastBlock(tags: map<nat, Tag>, g: Ghosts, t: nat) {
    t in g.home && forall u <- tags | u != t && u in g.home && g.home[u] == g.home[t] :: tags[u].index >= 0
  }

  /** From the tag `t` the tag `tag` has grown over free neighbours; all other tags in use are as they were. */
  ghost predicate Grew(tags: map<nat, Tag>, tags': map<nat, Tag>, g: Ghosts, t: nat, tag: nat) {
    tags'.Keys <= tags.Keys && tag in tags' && t in tags && (tag == t || t !in tags') &&
    (forall u <- tags' | u != tag :: tags'[u].index == tags[u].index) &&
    (forall u <- tags | u != t && tags[u].index < 0 :: u in tags' && u != tag) &&
    t in g.home && tag in g.home && g.home[tag] == g.home[t]
  }

  lemma {:induction false} GrewStart(tags: map<nat, Tag>, g: Ghosts, t: nat)
    requires t in tags && AllPlaced(tags, g)
    ensures Grew(tags, tags, g, t, t)
  {
    assert Placed(tags, g, t);
  }

  lemma {:induction false} GrewMelt(tags0: map<nat, Tag>, tags: map<nat, Tag>, tags': map<nat, Tag>, g: Ghosts, t: nat,
      tag: nat)
    requires Grew(tags0, tags, g, t, tag) && AllPlaced(tags, g) && tags[tag].left in tags &&
      tags[tags[tag].left].index >= 0
    requires tags[tag].left != tag && Joined(tags, tags', tags[tag].left, tag)
    ensures Grew(tags0, tags', g, t, tags[tag].left)
  {
    var l := tags[tag].left;
    assert Placed(tags, g, tag);
    assert Placed(tags, g, l);
  }

  lemma {:induction false} GrewAbsorb(tags0: map<nat, Tag>, tags: map<nat, Tag>, tags': map<nat, Tag>, g: Ghosts,
      t: nat, tag: nat)
    requires Grew(tags0, tags, g, t, tag) && tags[tag].right in tags && tags[tags[tag].right].index >= 0
    requires tags[tag].right != tag && Joined(tags, tags', tag, tags[tag].right)
    ensures Grew(tags0, tags', g, t, tag)
  {
  }

  /** The grown tag is whole exactly when it grew from the last block in use of its region. */
  lemma {:induction false} WholeExactly(tags0: map<nat, Tag>, tags: map<nat, Tag>, g: Ghosts, t: nat, tag: nat)
    requires Tiled(tags, g) && Grew(tags0, tags, g, t, tag)
    requires tags[tag].left in tags ==> tags[tags[tag].left].index < 0
    requires tags[tag].right in tags ==> tags[tags[tag].right].index < 0
    ensures tags[tag].left == tags[tag].right == 0 <==> LastBlock(tags0, g, t)
    ensures tags[tag].left == tags[tag].right == 0 ==>
      g.home[t] in g.regions && tags[tag].realSize == g.regions[g.home[t]]
  {
    assert Placed(tags, g, tag);
    if tags[tag].left == tags[tag].right == 0 {
      forall u <- tags0 | u != t && u in g.home && g.home[u] == g.home[t]
        ensures tags0[u].index >= 0
      {
        if u in tags && u != tag {
          AloneInRegion(tags, g, tag, u);
        }
      }
    } else if tags[tag].left != 0 {
      assert Placed(tags, g, tags[tag].left);
      NotItself(tags, g, tag, tags[tag].left);
    } else {
      assert Placed(tags, g, tags[tag].right);
      NotItself(tags, g, tags[tag].right, tag);
    }
  }

  /** A tag's region is one, and long enough for a header. */
  lemma {:induction false} RegionOf(tags: map<nat, Tag>, g: Ghosts, t: nat)
    requires Tiled(tags, g) && t in tags
    ensures t in g.home && g.home[t] in g.regions && g.regions[g.home[t]] >= TAG_SIZE
  {
    assert Placed(tags, g, t);
  }

  lemma {:induction false} InvTiled(h: Heap, g: Ghosts, loose: set<nat>)
    requires Inv(h, g, loose)
    ensures Tiled(h.tags, g) && |h.completePages| == MAXEXP
  {
    hide Tiled, Listed, NoTwoFree, Paid;
  }

  lemma {:induction false} NotItself(tags: map<nat, Tag>, g: Ghosts, t: nat, l: nat)
    requires AllPlaced(tags, g) && t in tags && l in tags && tags[l].right == t
    ensures l != t
  {
    assert Placed(tags, g, l);
  }

  lemma {:induction false} AloneInRegion(tags: map<nat, Tag>, g: Ghosts, tag: nat, u: nat)
    requires Tiled(tags, g) && tag in tags && u in tags && u != tag && u in g.home && tag in g.home &&
      g.home[u] == g.home[tag]
    ensures tags[tag].left != 0 || tags[tag].right != 0
  {
    assert Placed(tags, g, tag) && Placed(tags, g, u);
  }
}
