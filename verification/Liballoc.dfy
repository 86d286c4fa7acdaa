/**
 The kernel heap: malloc and free over boundary tags.  `tags` is the memory that holds tags; a header swallowed by
 a neighbour leaves it.
 */
module Liballoc {
  import opened HeapTags
  import opened Powers
  import opened HeapSteps
  import opened HeapTheorems

  /** The pages allocate_new_tag asks liballoc_alloc for. */
  function PagesFor(size: nat): (pages: nat)
    ensures size + TAG_SIZE <= pages * PAGE_SIZE < size + TAG_SIZE + PAGE_SIZE
  {
    (size + TAG_SIZE + PAGE_SIZE - 1) / PAGE_SIZE
  }

  /** liballoc_alloc takes the page count as an int: requests it can state. */
  predicate Askable(size: nat) {
    PagesFor(size) < 0x8000_0000
  }

  /** The blocks in use, pointer to requested size, are those behind the tags handed out. */
  ghost predicate Blocks(tags: map<nat, Tag>, live: map<nat, nat>, loose: set<nat>) {
    (forall t <- tags | tags[t].index < 0 && t !in loose ::
      t + TAG_SIZE in live && live[t + TAG_SIZE] == tags[t].size) &&
    (forall p <- live :: TAG_SIZE < p && p - TAG_SIZE in tags && tags[p - TAG_SIZE].index < 0 && p - TAG_SIZE !in loose)
  }

  lemma {:induction false} BlocksJoined(tags: map<nat, Tag>, tags': map<nat, Tag>, live: map<nat, nat>, l: nat, r: nat,
      t: nat)
    requires l in tags && r in tags && Joined(tags, tags', l, r)
    requires (t == l && tags[r].index >= 0) || (t == r && tags[l].index >= 0)
    requires Blocks(tags, live, {t})
    ensures Blocks(tags', live, {l})
  {
  }

  lemma {:induction false} BlocksPut(h: Heap, live: map<nat, nat>, t: nat, b: nat)
    requires t in h.tags && b < |h.freePages| && |h.completePages| == |h.freePages| && h.freePages[b] != t &&
      0 !in h.tags
    requires h.freePages[b] != 0 ==> h.freePages[b] in h.tags
    requires h.tags[t].index < 0 && Blocks(h.tags, live, {t})
    ensures Blocks(Put(h, t, b).tags, live, {})
  {
    PutFields(h, t, b);
    hide Put;
  }

  lemma {:induction false} BlocksSplit(tags: map<nat, Tag>, live: map<nat, nat>, t: nat)
    requires t in tags && TAG_SIZE + tags[t].size <= tags[t].realSize && 0 !in tags && tags[t].index < 0
    requires t + TAG_SIZE + tags[t].size !in tags && tags[t].right != t
    requires Blocks(tags, live, {t})
    ensures Blocks(Split(tags, t), live, {t, t + TAG_SIZE + tags[t].size})
  {
    SplitFields(tags, t);
    hide Split;
  }

  lemma {:induction false} BlocksFiled(h: Heap, live: map<nat, nat>, t: nat, n: nat, b: nat)
    requires n in h.tags && b < |h.freePages| && |h.completePages| == |h.freePages| && h.freePages[b] != n &&
      0 !in h.tags
    requires h.freePages[b] != 0 ==> h.freePages[b] in h.tags
    requires h.tags[n].index < 0 && Blocks(h.tags, live, {t, n})
    ensures Blocks(Put(h, n, b).tags, live, {t})
  {
    PutFields(h, n, b);
    hide Put;
  }

  /** malloc's test: the tag holds the request and one more header. */
  predicate Fits(tags: map<nat, Tag>, t: nat, size: nat)
    requires t in tags
  {
    tags[t].realSize - TAG_SIZE >= size + TAG_SIZE
  }

  function SearchBin(size: nat): (b: nat)
    ensures MINEXP <= b < MAXEXP
  {
    if GetExp(size) < MINEXP then MINEXP else GetExp(size)
  }

  /** malloc searches one bin: that of a tag with room for just the request.  A free tag that fits is in that bin or a
      higher one, where it is overlooked. */
  lemma {:induction false} SearchedBin(h: Heap, g: Ghosts, t: nat, size: nat)
    requires Listed(h, g) && t in h.tags && h.tags[t].index >= 0 && Fits(h.tags, t, size)
    ensures SearchBin(size) == Bin(size + TAG_SIZE) <= h.tags[t].index
  {
    hide ExpFrom;
    assert Binned(h, g, t);
    ExpFromMonotone(size, h.tags[t].realSize - TAG_SIZE, MINEXP + 1);
    SearchesRoom(size);
  }

  lemma {:induction false} SearchesRoom(size: nat)
    ensures SearchBin(size) == Bin(size + TAG_SIZE)
  {
  }

  lemma {:induction false} Settle(h: Heap, g: Ghosts, t: nat)
    requires Inv(h, g, {t}) && t in h.tags && TAG_SIZE + h.tags[t].size <= h.tags[t].realSize
    ensures Inv(h, g, {})
  {
    hide Tiled, Listed, NoTwoFree, Counted;
  }

  lemma {:induction false} BlockHandedOut(tags: map<nat, Tag>, live: map<nat, nat>, t: nat)
    requires t in tags && tags[t].index < 0 && Blocks(tags, live, {t}) && t > 0
    ensures t + TAG_SIZE !in live && Blocks(tags, live[t + TAG_SIZE := tags[t].size], {})
  {
  }

  lemma {:induction false} BlocksSized(tags: map<nat, Tag>, live: map<nat, nat>, t: nat, size: nat)
    requires t in tags && Blocks(tags, live, {t})
    ensures Blocks(tags[t := tags[t].(size := size)], live, {t})
  {
  }

  lemma {:induction false} BlockTag(tags: map<nat, Tag>, live: map<nat, nat>, ptr: nat)
    requires Blocks(tags, live, {}) && ptr in live
    ensures TAG_SIZE < ptr && (ptr - TAG_SIZE) as nat in tags
    ensures tags[(ptr - TAG_SIZE) as nat].index < 0 && live[ptr] == tags[(ptr - TAG_SIZE) as nat].size
  {
  }

  lemma {:induction false} BlocksWithout(tags: map<nat, Tag>, live: map<nat, nat>, ptr: nat)
    requires Blocks(tags, live, {}) && ptr in live && ptr >= TAG_SIZE
    ensures Blocks(tags, live - {ptr}, {(ptr - TAG_SIZE) as nat})
  {
  }

  lemma {:induction false} BlocksTaken(h: Heap, live: map<nat, nat>, t: nat)
    requires t in h.tags && 0 <= h.tags[t].index < |h.freePages| && |h.completePages| == |h.freePages|
    requires Blocks(h.tags, live, {})
    ensures Blocks(Take(h, t).tags, live, {t})
  {
    RemoveFields(h, t);
    hide Remove;
  }

  class Heaps {
    var tags: map<nat, Tag>
    var freePages: seq<nat>
    var completePages: seq<int>
    ghost var g: Ghosts
    ghost var live: map<nat, nat>

    function State(): Heap
      reads this
    {
      Heap(tags, freePages, completePages)
    }

    ghost predicate Valid()
      reads this
    {
      Inv(State(), g, {}) && Blocks(tags, live, {})
    }

    /** The first call's initialization: empty bins, no regions. */
    constructor ()
      ensures Valid() && tags == map[] && live == map[] && g.regions == map[]
    {
      tags, freePages, completePages := map[], seq(MAXEXP, _ => 0), seq(MAXEXP, _ => 0);
      g, live := Ghosts(map[], map[], map[], 0), map[];
      new;
      assert forall b :: Whole(tags, b) == {};
    }

    /** getexp's search for the exponent. */
    method ComputeExp(size: nat) returns (exp: int)
      ensures exp == GetExp(size)
    {
      if size < 256 {
        return -1;
      }
      var shift := MINEXP;
      while shift < MAXEXP
        invariant MINEXP <= shift <= MAXEXP
        invariant shift == MINEXP || ExpFrom(size, MINEXP + 1) == ExpFrom(size, shift)
      {
        if Shl(shift) > size {
          Pow2Values();
          break;
        }
        shift := shift + 1;
      }
      exp := shift - 1;
    }

    method InsertTag(t: nat, index: int)
      requires t in tags && |freePages| == MAXEXP && index < MAXEXP && 0 !in tags
      requires index < 0 ==> tags[t].realSize >= TAG_SIZE
      requires forall b | 0 <= b < MAXEXP && freePages[b] != 0 :: freePages[b] in tags && freePages[b] != t
      modifies this`tags, this`freePages
      ensures State() == Insert(old(State()), t, if index < 0 then Bin(old(tags[t].realSize)) else index)
    {
      var realIndex := index;
      if index < 0 {
        realIndex := ComputeExp(tags[t].realSize - TAG_SIZE);
        if realIndex < MINEXP {
          realIndex := MINEXP;
        }
      }
      tags := tags[t := tags[t].(index := realIndex)];
      var head := freePages[realIndex];
      if head != 0 {
        tags := tags[head := tags[head].(prev := t)];
        tags := tags[t := tags[t].(next := head)];
      }
      freePages := freePages[realIndex := t];
    }

    method RemoveTag(t: nat)
      requires t in tags && |freePages| == MAXEXP && 0 <= tags[t].index < MAXEXP
      requires tags[t].next != t && tags[t].prev != t
      requires tags[t].next != 0 ==> tags[t].next in tags
      requires tags[t].prev != 0 ==> tags[t].prev in tags
      modifies this`tags, this`freePages
      ensures State() == Remove(old(State()), t)
    {
      if freePages[tags[t].index] == t {
        freePages := freePages[tags[t].index := tags[t].next];
      }
      if tags[t].prev != 0 {
        tags := tags[tags[t].prev := tags[tags[t].prev].(next := tags[t].next)];
      }
      if tags[t].next != 0 {
        tags := tags[tags[t].next := tags[tags[t].next].(prev := tags[t].prev)];
      }
      tags := tags[t := tags[t].(next := 0, prev := 0, index := -1)];
    }

    /** The statements melt_left and absorb_right share: `l` takes over the space of its right neighbour. */
    method Join(l: nat, r: nat)
      requires Joinable(tags, l, r)
      modifies this`tags
      ensures tags == Merge(old(tags), l, r)
    {
      tags := tags[l := tags[l].(realSize := tags[l].realSize + tags[r].realSize)];
      tags := tags[l := tags[l].(right := tags[r].right)];
      if tags[r].right != 0 {
        tags := tags[tags[r].right := tags[tags[r].right].(left := l)];
      }
      tags := tags - {r};
    }

    method MeltLeft(t: nat) returns (left: nat)
      requires t in tags && Joinable(tags, tags[t].left, t)
      modifies this`tags
      ensures left == old(tags[t].left) && tags == Merge(old(tags), left, t)
    {
      left := tags[t].left;
      Join(left, t);
    }

    method AbsorbRight(t: nat)
      requires t in tags && Unlinkable(State(), tags[t].right) && Joinable(tags, t, tags[t].right)
      modifies this`tags, this`freePages
      ensures State() == Absorbed(old(State()), t)
    {
      var right := tags[t].right;
      StillJoinable(State(), right, t, right);
      RemoveTag(right);
      hide Merge, Remove;
      Join(t, right);
    }

    /** The block is the last in use of its region. */
    ghost predicate LastOne(ptr: nat)
      requires ptr in live && Valid()
      reads this
    {
      RegionSize(ptr);
      LastBlock(tags, g, ptr - TAG_SIZE)
    }

    /** The bin of a free tag over the whole region of a block. */
    ghost function RegionBin(ptr: nat): (b: nat)
      requires ptr in live && Valid()
      reads this
      ensures b < |completePages|
    {
      RegionSize(ptr);
      Bin(g.regions[g.home[ptr - TAG_SIZE]])
    }

    lemma {:induction false} RegionSize(ptr: nat)
      requires ptr in live && Valid()
      ensures ptr >= TAG_SIZE && (ptr - TAG_SIZE) as nat in g.home && g.home[(ptr - TAG_SIZE) as nat] in g.regions
      ensures g.regions[g.home[(ptr - TAG_SIZE) as nat]] >= TAG_SIZE && |completePages| == MAXEXP
    {
      hide Inv;
      BlockTag(tags, live, ptr);
      hide Blocks;
      InvTiled(State(), g, {});
      RegionOf(tags, g, (ptr - TAG_SIZE) as nat);
    }

    /** free.  The result tells whether the call hangs in its "too many pages" loop; then the lock is never returned. */
    method Free(ptr: nat) returns (hung: bool)
      requires Valid() && (ptr == 0 || ptr in live)
      modifies this
      ensures ptr == 0 ==> !hung && State() == old(State()) && live == old(live) && g == old(g)
      ensures !hung && ptr != 0 ==> Valid() && live == old(live) - {ptr} && g.regions == old(g.regions)
      // The freed bytes are now inside one free tag.
      ensures !hung && ptr != 0 ==> exists f <- tags ::
        tags[f].index >= 0 && f + TAG_SIZE <= ptr && ptr + old(live[ptr]) <= f + tags[f].realSize
      // It hangs exactly when this frees the last block in use of a region whose bin has all the whole tags it may
      // have.
      ensures hung <==> ptr != 0 && old(LastOne(ptr)) && old(completePages[RegionBin(ptr)]) == MAXCOMPLETE
    {
      hide Inv, Blocks, Grew, LastBlock, Bin, Tiled;
      if ptr == 0 {
        return false;
      }
      Reclaim(ptr);
      RegionSize(ptr);
      var tag := ptr - TAG_SIZE;
      ghost var before := tags;
      live := live - {ptr};
      tag := Coalesce(tag);
      InvTiled(State(), g, {tag});
      WholeExactly(before, tags, g, (ptr - TAG_SIZE) as nat, tag);
      hung := GiveBack(tag);
    }

    /** free's two loops: melt into free tags on the left, then absorb those on the right. */
    method Coalesce(t: nat) returns (tag: nat)
      requires Inv(State(), g, {t}) && t in tags && Blocks(tags, live, {t})
      modifies this`tags, this`freePages
      ensures tag in tags && Inv(State(), g, {tag}) && Blocks(tags, live, {tag})
      ensures tags[tag].left in tags ==> tags[tags[tag].left].index < 0
      ensures tags[tag].right in tags ==> tags[tags[tag].right].index < 0
      ensures tag <= t && t + old(tags[t].realSize) <= tag + tags[tag].realSize
      ensures completePages == old(completePages)
      ensures Grew(old(tags), tags, g, t, tag)
    {
      hide Inv, Blocks, Listed, AllPlaced, Grew;
      tag := t;
      Pointers(State(), g, {tag}, tag);
      GrewStart(tags, g, t);
      while tags[tag].left != 0 && tags[tags[tag].left].index >= 0
        invariant tag in tags && Inv(State(), g, {tag}) && Blocks(tags, live, {tag})
        invariant 0 !in tags && (tags[tag].left == 0 || tags[tag].left in tags)
        invariant completePages == old(completePages) && tag <= t &&
          t + old(tags[t].realSize) <= tag + tags[tag].realSize
        invariant Grew(old(tags), tags, g, t, tag)
        decreases |tags.Keys|
      {
        Pointers(State(), g, {tag}, tag);
        NeighboursJoinable(tags, g, tags[tag].left, tag);
        ghost var before, was := tags, tag;
        tag := MeltOnce(tag);
        GrewMelt(old(tags), before, tags, g, t, was);
        Pointers(State(), g, {tag}, tag);
      }
      Pointers(State(), g, {tag}, tag);
      while tags[tag].right != 0 && tags[tags[tag].right].index >= 0
        invariant tag in tags && Inv(State(), g, {tag}) && Blocks(tags, live, {tag})
        invariant tags[tag].left in tags ==> tags[tags[tag].left].index < 0
        invariant 0 !in tags && (tags[tag].right == 0 || tags[tag].right in tags)
        invariant completePages == old(completePages) && tag <= t &&
          t + old(tags[t].realSize) <= tag + tags[tag].realSize
        invariant Grew(old(tags), tags, g, t, tag)
        decreases |tags.Keys|
      {
        Pointers(State(), g, {tag}, tag);
        NeighboursJoinable(tags, g, tag, tags[tag].right);
        ghost var before := tags;
        AbsorbOnce(tag);
        GrewAbsorb(old(tags), before, tags, g, t, tag);
        Pointers(State(), g, {tag}, tag);
      }
    }

    lemma {:induction false} Reclaim(ptr: nat)
      requires Valid() && ptr in live
      ensures ptr >= TAG_SIZE && ptr - TAG_SIZE in tags && Inv(State(), g, {(ptr - TAG_SIZE) as nat})
      ensures Blocks(tags, live - {ptr}, {(ptr - TAG_SIZE) as nat})
      ensures ptr + live[ptr] <= ptr - TAG_SIZE + tags[ptr - TAG_SIZE].realSize
    {
      hide Tiled, Listed, NoTwoFree, Counted;
      BlockTag(tags, live, ptr);
      BlocksWithout(tags, live, ptr);
      hide Blocks;
    }

    /** A turn of free's first loop. */
    method MeltOnce(t: nat) returns (left: nat)
      requires Inv(State(), g, {t}) && t in tags && tags[t].left in tags && tags[tags[t].left].index >= 0 &&
        Blocks(tags, live, {t})
      modifies this`tags, this`freePages
      ensures left in tags && Inv(State(), g, {left}) && Blocks(tags, live, {left})
      ensures |tags.Keys| < |old(tags.Keys)| && completePages == old(completePages)
      ensures left <= t && left + tags[left].realSize == t + old(tags[t].realSize)
      ensures left == old(tags[t].left) && Joined(old(tags), tags, left, t)
    {
      hide Inv, Blocks, Merge, Remove, Joinable, AllPlaced, Listed;
      ghost var h := State();
      Pointers(h, g, {t}, t);
      MeltStep(h, g, t);
      BlocksJoined(tags, Melted(h, t).tags, live, tags[t].left, t, t);
      left := MeltLeft(t);
      RemoveTag(left);
    }

    /** A turn of free's second loop. */
    method AbsorbOnce(t: nat)
      requires Inv(State(), g, {t}) && t in tags && tags[t].right in tags && tags[tags[t].right].index >= 0 &&
        Blocks(tags, live, {t})
      requires tags[t].left in tags ==> tags[tags[t].left].index < 0
      modifies this`tags, this`freePages
      ensures t in tags && Inv(State(), g, {t}) && Blocks(tags, live, {t})
      ensures tags[t].left in tags ==> tags[tags[t].left].index < 0
      ensures |tags.Keys| < |old(tags.Keys)| && completePages == old(completePages)
      ensures tags[t].realSize >= old(tags[t].realSize)
      ensures old(tags[t].right in tags) && Joined(old(tags), tags, t, old(tags[t].right))
    {
      hide Inv, Blocks, Merge, Remove, Joinable, Unlinkable;
      ghost var h := State();
      AbsorbStep(h, g, t);
      BlocksJoined(tags, Absorbed(h, t).tags, live, t, tags[t].right, t);
      AbsorbRight(t);
    }

    /** The end of free: count the tag if it is whole, and file it. */
    method GiveBack(t: nat) returns (hung: bool)
      requires Inv(State(), g, {t}) && t in tags && Blocks(tags, live, {t})
      requires tags[t].left in tags ==> tags[tags[t].left].index < 0
      requires tags[t].right in tags ==> tags[tags[t].right].index < 0
      modifies this
      ensures live == old(live)
      ensures |old(completePages)| == MAXEXP && old(tags[t].realSize) >= TAG_SIZE
      ensures hung <==>
        old(tags[t].left == tags[t].right == 0) && old(completePages)[Bin(old(tags[t].realSize))] == MAXCOMPLETE
      ensures !hung ==> Valid() && g.regions == old(g.regions)
      ensures !hung ==> t in tags && tags[t].index >= 0 && tags[t].realSize == old(tags[t].realSize)
    {
      hide Inv, Blocks, Listed, AllPlaced;
      Pointers(State(), g, {t}, t);
      var index := ComputeExp(tags[t].realSize - TAG_SIZE);
      if index < MINEXP {
        index := MINEXP;
      }
      ghost var h := State();
      PutKeeps(h, g, t);
      BlocksPut(h, live, t, index);
      assert index == Bin(tags[t].realSize);
      hide Bin, GetExp;
      if tags[t].left == 0 && tags[t].right == 0 {
        if completePages[index] == MAXCOMPLETE {
          return true;
        }
        completePages := completePages[index := completePages[index] + 1];
      }
      InsertTag(t, index);
      g := Stamped(g, t);
      hung := false;
    }

    /** split_tag: what the tag in hand does not need becomes a free tag. */
    method SplitTag(t: nat) returns (n: nat)
      requires Inv(State(), g, {t}) && t in tags && 2 * TAG_SIZE + tags[t].size <= tags[t].realSize
      requires tags[t].right in tags ==> tags[tags[t].right].index < 0
      requires Blocks(tags, live, {t})
      modifies this
      ensures Inv(State(), g, {}) && g.regions == old(g.regions) && live == old(live)
      ensures n == t + TAG_SIZE + old(tags[t].size) && t in tags && Blocks(tags, live, {t})
      ensures tags[t].size == old(tags[t].size) && tags[t].realSize == TAG_SIZE + tags[t].size && tags[t].index < 0
    {
      hide Inv, Blocks, Listed, AllPlaced;
      ghost var h := State();
      Pointers(h, g, {t}, t);
      SplitKeeps(h, g, t);
      SplitFields(tags, t);
      BlocksSplit(tags, live, t);
      n := t + TAG_SIZE + tags[t].size;
      g := SplitGhosts(g, t, n);
      var remainder := tags[t].realSize - TAG_SIZE - tags[t].size;
      var newTag := Tag(0, remainder, -1, t, tags[t].right, 0, 0);
      var right := tags[t].right;
      tags := tags[n := newTag];
      if right != 0 {
        tags := tags[right := tags[right].(left := n)];
      }
      tags := tags[t := tags[t].(right := n)];
      tags := tags[t := tags[t].(realSize := tags[t].realSize - remainder)];
      assert tags == Split(h.tags, t);
      hide Split, Insert;
      FileRemainder(t, n);
    }

    /** split_tag's insert_tag. */
    method FileRemainder(t: nat, n: nat)
      requires Inv(State(), g, {n}) && n in tags && t in tags && t != n && tags[n].left == t && tags[t].index < 0
      requires tags[n].right in tags ==> tags[tags[n].right].index < 0
      requires Blocks(tags, live, {t, n})
      modifies this
      ensures Inv(State(), g, {}) && g.regions == old(g.regions) && live == old(live)
      ensures t in tags && Blocks(tags, live, {t})
      ensures tags[t].size == old(tags[t].size) && tags[t].realSize == old(tags[t].realSize) &&
        tags[t].index == old(tags[t].index)
    {
      hide Inv, Blocks, Listed, AllPlaced, Bin;
      ghost var h := State();
      Pointers(h, g, {n}, n);
      PutKeeps(h, g, n);
      PutFields(h, n, Bin(tags[n].realSize));
      BlocksFiled(h, live, t, n, Bin(tags[n].realSize));
      hide Insert;
      InsertTag(n, -1);
      g := Stamped(g, n);
    }

    /** allocate_new_tag: one tag over a new region.  `grant` is what liballoc_alloc answers, 0 for no memory. */
    method AllocateNewTag(size: nat, grant: nat) returns (tag: nat)
      requires Valid() && Askable(size)
      requires grant != 0 ==> ClearOf(g, grant, PagesFor(size) * PAGE_SIZE)
      modifies this
      ensures tag == grant && live == old(live)
      ensures tag == 0 ==> State() == old(State()) && g == old(g)
      ensures tag != 0 ==> tag !in old(tags) && Inv(State(), g, {tag}) && Blocks(tags, live, {tag})
      ensures tag != 0 ==> tags == old(tags)[tag := NewTag(size, PagesFor(size) * PAGE_SIZE)]
      ensures tag != 0 ==> g.regions == old(g.regions)[grant := PagesFor(size) * PAGE_SIZE]
    {
      hide Inv;
      var usage := size + TAG_SIZE;
      var pages := usage / PAGE_SIZE;
      if usage % PAGE_SIZE != 0 {
        pages := pages + 1;
      }
      if pages < 1 {
        pages := 1;
      }
      assert pages == PagesFor(size);
      tag := grant;
      if tag == 0 {
        return;
      }
      GrowKeeps(State(), g, tag, pages * PAGE_SIZE, size);
      tags := tags[tag := NewTag(size, pages * PAGE_SIZE)];
      g := Grown(g, tag, pages * PAGE_SIZE);
    }

    /** malloc's walk along one bin: the first tag that fits. */
    method FindFit(index: nat, size: nat) returns (tag: nat, ghost before: seq<nat>)
      requires Inv(State(), g, {}) && index < MAXEXP
      ensures tag == 0 ==> forall u <- tags | tags[u].index == index :: !Fits(tags, u, size)
      ensures tag != 0 ==> tag in tags && tags[tag].index == index && Fits(tags, tag, size)
      ensures tag != 0 ==> BinList(State(), g, freePages[index]) == before + BinList(State(), g, tag)
      ensures forall u <- before :: u in tags && !Fits(tags, u, size)
    {
      hide Tiled, NoTwoFree, Counted, Paid, Bin;
      ghost var h := State();
      BinExact(h, g, {}, index);
      tag, before := freePages[index], [];
      ghost var all := BinList(h, g, tag);
      while tag != 0
        invariant tag == 0 || (tag in tags && tags[tag].index == index)
        invariant all == before + BinList(h, g, tag)
        invariant forall u <- before :: u in tags && !Fits(tags, u, size)
        decreases if tag != 0 && tag in g.stamp then g.stamp[tag] + 1 else 0
      {
        if tags[tag].realSize - TAG_SIZE >= size + TAG_SIZE {
          return;
        }
        assert Binned(h, g, tag);
        before := before + [tag];
        tag := tags[tag].next;
      }
    }

    /** malloc's other branch: the tag found leaves its bin and the count of whole tags. */
    method TakeTag(t: nat)
      requires Valid() && t in tags && tags[t].index >= 0
      modifies this`tags, this`freePages, this`completePages
      ensures t in tags && Inv(State(), g, {t}) && Blocks(tags, live, {t})
      ensures tags[t].realSize == old(tags[t].realSize) && tags[t].index < 0
      ensures tags[t].right in tags ==> tags[tags[t].right].index < 0
    {
      hide Inv, Blocks, Listed, AllPlaced, NoTwoFree;
      ghost var h := State();
      Pointers(h, g, {}, t);
      FreeTagUnlinkable(h, g, t);
      TakeKeeps(h, g, t, {});
      RemoveFields(h, t);
      BlocksTaken(h, live, t);
      RightBusy(t);
      assert {} + {t} == {t};
      var index := tags[t].index;
      RemoveTag(t);
      hide Remove;
      if tags[t].left == 0 && tags[t].right == 0 {
        completePages := completePages[index := completePages[index] - 1];
      }
    }

    lemma {:induction false} RightBusy(t: nat)
      requires Inv(State(), g, {}) && t in tags && tags[t].index >= 0
      ensures tags[t].right in tags ==> tags[tags[t].right].index < 0
    {
      hide Tiled, Listed, Counted, Paid;
    }

    /** malloc from the point where a tag is in hand: cut off the remainder if it is worth a tag, and hand
        out the block. */
    method HandOut(tag: nat, size: nat) returns (ptr: nat)
      requires Inv(State(), g, {tag}) && tag in tags && Blocks(tags, live, {tag}) && tags[tag].index < 0
      requires TAG_SIZE + size <= tags[tag].realSize && (tags[tag].right in tags ==> tags[tags[tag].right].index < 0)
      modifies this
      ensures Valid() && ptr == tag + TAG_SIZE && ptr !in old(live) && live == old(live)[ptr := size]
      ensures g.regions == old(g.regions) && tag in tags
      ensures tags[tag].realSize == TAG_SIZE + size ||
        (tags[tag].realSize == old(tags[tag].realSize) < size + 2 * TAG_SIZE + 256)
    {
      hide Inv, Blocks, Listed, AllPlaced;
      Pointers(State(), g, {tag}, tag);
      SizeKeeps(State(), g, tag, size);
      BlocksSized(tags, live, tag, size);
      tags := tags[tag := tags[tag].(size := size)];
      var remainder := tags[tag].realSize - size - 2 * TAG_SIZE;
      var split := false;
      if remainder > 0 {
        var childIndex := ComputeExp(remainder);
        split := childIndex >= 0;
      }
      if split {
        var newTag := SplitTag(tag);
      } else {
        Settle(State(), g, tag);
      }
      BlockHandedOut(tags, live, tag);
      ptr := tag + TAG_SIZE;
      live := live[ptr := size];
    }

    /** malloc.  `grant` is what liballoc_alloc would answer; the result 0 is the null pointer. */
    method Malloc(size: nat, grant: nat) returns (ptr: nat)
      requires Valid() && Askable(size)
      requires grant != 0 ==> ClearOf(g, grant, PagesFor(size) * PAGE_SIZE)
      modifies this
      // Null only when memory has run out, and then nothing changes.
      ensures ptr == 0 ==> grant == 0 && State() == old(State()) && live == old(live) && g == old(g)
      ensures ptr != 0 ==> Valid() && ptr !in old(live) && live == old(live)[ptr := size]
      // A new region comes in exactly when no tag of the bin searched fits.
      ensures (exists t <- old(tags) :: old(tags)[t].index == SearchBin(size) && Fits(old(tags), t, size)) ==>
        ptr != 0 && g.regions == old(g.regions)
      ensures ptr != 0 ==>
        (exists t <- old(tags) :: old(tags)[t].index == SearchBin(size) && Fits(old(tags), t, size)) ||
        (ptr == grant + TAG_SIZE && g.regions == old(g.regions)[grant := PagesFor(size) * PAGE_SIZE])
      // What is left beside the block is too small for a tag of its own.
      ensures ptr != 0 ==> ptr - TAG_SIZE in tags && tags[ptr - TAG_SIZE].realSize < size + 2 * TAG_SIZE + 256
    {
      hide Inv, Blocks;
      var index := ComputeExp(size);
      if index < MINEXP {
        index := MINEXP;
      }
      assert index == SearchBin(size);
      hide GetExp;
      var tag, _ := FindFit(index, size);
      if tag == 0 {
        NoZeroTag();
        tag := AllocateNewTag(size, grant);
        if tag == 0 {
          return 0;
        }
        PointersAll(tag);
      } else {
        TakeTag(tag);
      }
      ptr := HandOut(tag, size);
    }

    /** With every block freed, each region is one free tag over its whole length. */
    lemma {:induction false} AllFreed(base: nat)
      requires Valid() && live == map[] && base in g.regions
      ensures base in tags && tags[base].realSize == g.regions[base] && tags[base].index >= 0
      ensures forall t <- tags | t in g.home && g.home[t] == base :: t == base
    {
      forall t <- tags
        ensures tags[t].index >= 0
      {
        assert t + TAG_SIZE !in live;
      }
      AllFree(State(), g, base);
    }

    lemma {:induction false} NoZeroTag()
      requires Inv(State(), g, {})
      ensures 0 !in tags
    {
    }

    lemma {:induction false} PointersAll(t: nat)
      requires Inv(State(), g, {t}) && t in tags
      ensures 0 !in tags
    {
    }
  }
}
