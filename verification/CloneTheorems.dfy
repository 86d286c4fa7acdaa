/**
 What a clone means for the processes that use the two maps, and what clone and clear do to the stock of frames.
 */
module CloneTheorems {
  import opened PhysicalMemory
  import opened OwnedFrames
  import opened FlatMap
  import opened CloneRelation
  import opened MemoryManagers
  import opened PageMapCloning

  /** Walking a clone and its source in step: the same tables exist, and each is a clone of its counterpart. */
  lemma {:induction false} ClonedWalk(p: Phys, src: nat, q: Phys, dst: nat, path: Path)
    requires Cloned(p, src, q, dst, 4) && |path| <= 3 && PrivatePath(path)
    ensures TableAt(p, src, path).Some? <==> TableAt(q, dst, path).Some?
    ensures TableAt(p, src, path).Some? ==>
      Cloned(p, TableAt(p, src, path).value, q, TableAt(q, dst, path).value, 4 - |path|)
    decreases |path|
  {
    if path != [] {
      var r := path[..|path| - 1];
      assert PrivatePath(r) by { assert r != [] ==> r[0] == path[0]; }
      ClonedWalk(p, src, q, dst, r);
      if TableAt(p, src, r).Some? {
        var t, t', i := TableAt(p, src, r).value, TableAt(q, dst, r).value, path[|path| - 1];
        assert ClonedWord(p, p[t][i], q, q[t'][i], 4 - |r|);
      }
    }
  }

  /** A table on a private path is owned, with all it owns. */
  lemma {:induction false} TableOwned(p: Phys, root: nat, path: Path)
    requires |path| <= 3 && PrivatePath(path) && TableAt(p, root, path).Some?
    ensures Own(p, TableAt(p, root, path).value, 4 - |path|) <= Own(p, root, 4)
    decreases |path|
  {
    if path != [] {
      var r := path[..|path| - 1];
      assert PrivatePath(r) by { assert r != [] ==> r[0] == path[0]; }
      TableOwned(p, root, r);
      BelowOwn(p, TableAt(p, root, r).value, 4 - |r|, path[|path| - 1]);
    }
  }

  lemma {:induction false} UserPageOwned(p: Phys, root: nat, page: Path)
    requires |page| == 4 && PrivatePath(page) && USER in Flat(p, root, page).bits
    ensures Flat(p, root, page).frame in Own(p, root, 4)
  {
    assert PrivatePath(page[..3]);
    TableOwned(p, root, page[..3]);
    BelowOwn(p, TableAt(p, root, page[..3]).value, 1, page[3]);
  }

  /** The clone, page by page: a user page is copied to a frame that was free; any other word is repeated. */
  lemma {:induction false} CloneFlat(p: Phys, u0: set<nat>, src: nat, q: Phys, used: set<nat>, dst: nat, page: Path)
    requires CloneDone(p, u0, src, q, used, dst) && |page| == 4 && PrivatePath(page)
    ensures var w, w' := Flat(p, src, page), Flat(q, dst, page);
      if USER in w.bits then
        w'.bits == CLONE_BITS && w.frame < |p| && w'.frame < |q| && q[w'.frame] == p[w.frame] &&
        w'.frame in used && w'.frame !in u0 - {dst}
      else w' == w
  {
    assert PrivatePath(page[..3]);
    ClonedWalk(p, src, q, dst, page[..3]);
    if TableAt(p, src, page[..3]).Some? {
      var t, t' := TableAt(p, src, page[..3]).value, TableAt(q, dst, page[..3]).value;
      assert ClonedWord(p, p[t][page[3]], q, q[t'][page[3]], 1);
      if USER in p[t][page[3]].bits {
        UserPageOwned(q, dst, page);
      }
    }
  }

  /** Within a table of the clone, what hangs below different slots is apart, all the way down. */
  lemma {:induction false} ClonedTree(p: Phys, root: nat, path: Path)
    requires OwnTree(p, root, 4) && |path| <= 3 && PrivatePath(path) && TableAt(p, root, path).Some?
    ensures OwnTree(p, TableAt(p, root, path).value, 4 - |path|)
    decreases |path|
  {
    if path != [] {
      var r := path[..|path| - 1];
      assert PrivatePath(r) by { assert r != [] ==> r[0] == path[0]; }
      ClonedTree(p, root, r);
      assert IsChild(p, TableAt(p, root, r).value, 4 - |r|, path[|path| - 1]);
    }
  }

  /** The frame of a user page lies below every slot its path goes through. */
  lemma {:induction false} PageBelowSlot(p: Phys, root: nat, page: Path, k: nat)
    requires |page| == 4 && PrivatePath(page) && USER in Flat(p, root, page).bits && k <= 3
    ensures TableAt(p, root, page[..k]).Some?
    ensures Flat(p, root, page).frame in Below(p, TableAt(p, root, page[..k]).value, 4 - k, page[k])
    decreases 3 - k
  {
    hide Own, Need;
    assert PrivatePath(page[..k]) && PrivatePath(page[..3]);
    if k == 3 {
      BelowOwn(p, TableAt(p, root, page[..3]).value, 1, page[3]);
    } else {
      PageBelowSlot(p, root, page, k + 1);
      assert page[..k + 1][..k] == page[..k];
      BelowOwn(p, TableAt(p, root, page[..k + 1]).value, 4 - (k + 1), page[k + 1]);
    }
  }

  /** Different user pages of a clone are in different frames. */
  lemma {:induction false} ClonePagesApart(p: Phys, u0: set<nat>, src: nat, q: Phys, used: set<nat>, dst: nat,
      page: Path, other: Path)
    requires CloneDone(p, u0, src, q, used, dst) && |page| == |other| == 4 && PrivatePath(page) &&
      PrivatePath(other) && page != other
    requires USER in Flat(q, dst, page).bits && USER in Flat(q, dst, other).bits
    ensures Flat(q, dst, page).frame != Flat(q, dst, other).frame
  {
    var i :| 0 <= i < 4 && page[i] != other[i];
    var k := FirstDifference(page, other, i);
    PageBelowSlot(q, dst, page, k);
    PageBelowSlot(q, dst, other, k);
    assert PrivatePath(page[..k]);
    ClonedTree(q, dst, page[..k]);
    var t := TableAt(q, dst, page[..k]).value;
    hide CloneDone, Below, Own, Flat;
    if page[k] < other[k] {
      assert Below(q, t, 4 - k, page[k]) !! Below(q, t, 4 - k, other[k]);
    } else {
      assert Below(q, t, 4 - k, other[k]) !! Below(q, t, 4 - k, page[k]);
    }
  }

  lemma {:induction false} FirstDifference(a: Path, b: Path, i: nat) returns (k: nat)
    requires i < |a| == |b| && a[i] != b[i]
    ensures k < |a| && a[..k] == b[..k] && a[k] != b[k]
    decreases i
  {
    if j :| 0 <= j < i && a[j] != b[j] {
      k := FirstDifference(a, b, j);
    } else {
      k := i;
    }
  }

  /** What a process sees through its private slots depends only on the frames its map owns. */
  lemma {:induction false} ViewFrame(p: Phys, q: Phys, root: nat, page: Path)
    requires AgreeOn(p, q, Own(p, root, 4)) && |page| == 4 && PrivatePath(page)
    ensures Flat(q, root, page) == Flat(p, root, page)
    ensures USER in Flat(p, root, page).bits && Flat(p, root, page).frame < |p| ==>
      q[Flat(p, root, page).frame] == p[Flat(p, root, page).frame]
  {
    assert PrivatePath(page[..3]);
    TableFrame(p, q, root, page[..3]);
    if TableAt(p, root, page[..3]).Some? {
      TableOwned(p, root, page[..3]);
      assert TableAt(p, root, page[..3]).value in Own(p, TableAt(p, root, page[..3]).value, 1);
    }
    if USER in Flat(p, root, page).bits {
      UserPageOwned(p, root, page);
    }
  }

  lemma {:induction false} TableFrame(p: Phys, q: Phys, root: nat, path: Path)
    requires AgreeOn(p, q, Own(p, root, 4)) && |path| <= 3 && PrivatePath(path)
    ensures TableAt(q, root, path) == TableAt(p, root, path)
    decreases |path|
  {
    if path != [] {
      var r := path[..|path| - 1];
      assert PrivatePath(r) by { assert r != [] ==> r[0] == path[0]; }
      TableFrame(p, q, root, r);
      if TableAt(p, root, r).Some? {
        TableOwned(p, root, r);
        assert TableAt(p, root, r).value in Own(p, TableAt(p, root, r).value, 4 - |r|);
      }
    }
  }

  /** Isolation: after a clone, a write to any frame the new map owns leaves all the source sees as it was, and a
      write to any other frame leaves all the new map sees as it was. */
  lemma {:induction false} CloneIsolated(p: Phys, u0: set<nat>, src: nat, q: Phys, used: set<nat>, dst: nat, f: nat,
      data: Page, page: Path)
    requires CloneDone(p, u0, src, q, used, dst) && Own(p, src, 4) <= u0 - {dst}
    requires f < |q| && |page| == 4 && PrivatePath(page)
    ensures var root := if f in Own(q, dst, 4) then src else dst;
      Flat(q[f := data], root, page) == Flat(q, root, page) &&
      (USER in Flat(q, root, page).bits && Flat(q, root, page).frame < |q| ==>
        q[f := data][Flat(q, root, page).frame] == q[Flat(q, root, page).frame])
  {
    OwnFrame(p, q, src, 4);
    ViewFrame(q, q[f := data], if f in Own(q, dst, 4) then src else dst, page);
  }

  /** Frames a clone holds through slots 1 to 507, which clearing does not visit. */
  ghost function Leaked(p: Phys, root: nat): set<nat> {
    set i, f | 1 <= i < PRIVATE_SLOTS && f in Below(p, root, 4, i) :: f
  }

  /** Used frames after clearing the clone, for every source map: the clone's lower slots are given back, its other
      slots are not, and the kernel pages it shares under slot 0 are lost to their owner. */
  lemma {:induction false} ClearedClone(p: Phys, u0: set<nat>, src: nat, q: Phys, used: set<nat>, dst: nat)
    requires CloneDone(p, u0, src, q, used, dst) && Link(4, p[src][0])
    ensures used - FreedBelow(q, q[dst][0].frame, 3) - {q[dst][0].frame as nat, dst} ==
            (u0 - {dst}) + Leaked(q, dst) - KernelLeaves(p, p[src][0].frame, 3)
  {
    assert ClonedWord(p, p[src][0], q, q[dst][0], 4);
    assert IsChild(q, dst, 4, 0);
    var pdp := q[dst][0].frame;
    FreedOfClone(p, p[src][0].frame, q, pdp, 3);
    OwnSplit(q, dst);
    hide CloneDone, KernelLeaves, FreedBelow, Leaked, Own, OwnTree, Cloned, Below;
  }

  lemma {:induction false} OwnSplit(q: Phys, dst: nat)
    requires OwnTree(q, dst, 4)
    ensures Own(q, dst, 4) == {dst} + Below(q, dst, 4, 0) + Leaked(q, dst)
    ensures dst !in Below(q, dst, 4, 0) + Leaked(q, dst) && Below(q, dst, 4, 0) !! Leaked(q, dst)
  {
    forall f | f in Leaked(q, dst)
      ensures f != dst && f !in Below(q, dst, 4, 0)
    {
      var i :| 1 <= i < PRIVATE_SLOTS && f in Below(q, dst, 4, i);
      assert Below(q, dst, 4, 0) !! Below(q, dst, 4, i);
    }
    forall f | f in Own(q, dst, 4) && f != dst
      ensures f in Below(q, dst, 4, 0) + Leaked(q, dst)
    {
      var i :| 0 <= i < Slots(4) && f in Below(q, dst, 4, i);
    }
    forall f | f in Below(q, dst, 4, 0) + Leaked(q, dst)
      ensures f in Own(q, dst, 4)
    {
    }
  }

  /** The stock of frames is exactly restored if and only if slots 1 to 507 lead to no table and no present kernel
      page below slot 0 is in a frame the bitmap manages. */
  lemma {:induction false} RestoredExactly(p: Phys, u0: set<nat>, src: nat, q: Phys, used: set<nat>, dst: nat)
    requires CloneDone(p, u0, src, q, used, dst) && Link(4, p[src][0])
    requires forall f <- used :: f < BITMAP_SIZE
    requires forall f <- KernelLeaves(p, p[src][0].frame, 3) :: f in u0 - {dst} || f >= BITMAP_SIZE
    ensures used - FreedBelow(q, q[dst][0].frame, 3) - {q[dst][0].frame as nat, dst} == u0 - {dst} <==>
            (forall i | 1 <= i < PRIVATE_SLOTS :: !Link(4, p[src][i])) &&
            (forall f <- KernelLeaves(p, p[src][0].frame, 3) :: f >= BITMAP_SIZE)
  {
    ClearedClone(p, u0, src, q, used, dst);
    OwnSplit(q, dst);
    forall i | 1 <= i < PRIVATE_SLOTS
      ensures Link(4, p[src][i]) <==> Below(q, dst, 4, i) != {}
      ensures Below(q, dst, 4, i) <= Leaked(q, dst)
    {
      assert ClonedWord(p, p[src][i], q, q[dst][i], 4);
      if Link(4, p[src][i]) {
        assert IsChild(q, dst, 4, i);
        assert q[dst][i].frame as nat in Below(q, dst, 4, i);
      }
    }
    var kernel := KernelLeaves(p, p[src][0].frame, 3);
    if i :| 1 <= i < PRIVATE_SLOTS && Link(4, p[src][i]) {
      var f :| f in Below(q, dst, 4, i);
      assert f in Leaked(q, dst) && f !in u0 - {dst} && f !in kernel;
    } else {
      assert Leaked(q, dst) == {};
    }
  }

  /** process_fork's new map, then the child's teardown. */
  method ForkThenReap(m: MemoryManager, src: nat)
    requires m.Valid() && Own(m.phys, src, 4) <= m.Used() && m.FreeFrames() > Need(m.phys, src, 4, 0)
    requires src < |m.phys| && Link(4, m.phys[src][0]) && 0 !in KernelLeaves(m.phys, m.phys[src][0].frame, 3)
    requires forall f <- KernelLeaves(m.phys, m.phys[src][0].frame, 3) :: f in m.Used() || f >= BITMAP_SIZE
    modifies m, m.memoryMap
    ensures m.Valid() && AgreeOn(old(m.phys), m.phys, old(m.Used()))
    ensures m.Used() == old(m.Used()) <==>
            (forall i | 1 <= i < PRIVATE_SLOTS :: !Link(4, old(m.phys)[src][i])) &&
            (forall f <- KernelLeaves(old(m.phys), old(m.phys)[src][0].frame, 3) :: f >= BITMAP_SIZE)
  {
    ghost var p, before := m.phys, m.Used();
    var root := m.KallocFrame();
    ghost var u0 := m.Used();
    CloneMap(m, src, root);
    ghost var q, used := m.phys, m.Used();
    ClearedZero(p, u0, src, q, used, root);
    RestoredExactly(p, u0, src, q, used, root);
    assert u0 - {root as nat} == before;
    hide *;
    ClearMap(m, root);
  }

  /** Frame 0 is never among the frames a clone gives back, unless it was a kernel page of the source. */
  lemma {:induction false} ClearedZero(p: Phys, u0: set<nat>, src: nat, q: Phys, used: set<nat>, dst: nat)
    requires CloneDone(p, u0, src, q, used, dst) && Link(4, p[src][0]) && 0 in u0 && dst != 0
    requires 0 !in KernelLeaves(p, p[src][0].frame, 3)
    ensures dst < |q| && q[dst][0].frame != 0 && 0 !in FreedBelow(q, q[dst][0].frame, 3)
  {
    assert ClonedWord(p, p[src][0], q, q[dst][0], 4);
    assert IsChild(q, dst, 4, 0);
    FreedOfClone(p, p[src][0].frame, q, q[dst][0].frame, 3);
    OwnSplit(q, dst);
    assert q[dst][0].frame as nat in Own(q, q[dst][0].frame, 3);
  }

  // ---- A source map for which the stock of frames is not restored ----

  const LEAKY_ROOT: nat := 0x2000

  /** A root with tables behind its first two slots, and nothing in them. */
  ghost function LeakyMemory(): (p: Phys)
    ensures |p| == FRAME_LIMIT
  {
    var row := ZERO_PAGE[0 := Word(0x2001, CLONE_BITS)][1 := Word(0x2002, CLONE_BITS)];
    seq(FRAME_LIMIT, f => if f == LEAKY_ROOT then row else ZERO_PAGE)
  }

  lemma {:induction false} NeedNothing(p: Phys, t: nat, level: nat, k: nat)
    requires t < |p| && forall i | k <= i < ENTRIES :: p[t][i] == ZERO_WORD
    ensures Need(p, t, level, k) == 0
    decreases Slots(level) - k
  {
    if level > 0 && k < Slots(level) {
      NeedNothing(p, t, level, k + 1);
    }
  }

  lemma {:induction false} OwnsItself(p: Phys, t: nat, level: nat)
    requires t < |p| && p[t] == ZERO_PAGE
    ensures Own(p, t, level) == {t} && KernelLeaves(p, t, level) == {}
  {
    if level > 0 {
      assert forall i :: !IsChild(p, t, level, i);
      assert forall i | 0 <= i < ENTRIES :: p[t][i] == ZERO_WORD;
    }
  }

  /** The map meets every condition of the restoration but that slots 1 to 507 be empty. */
  lemma {:induction false} LeakyMap()
    ensures var p := LeakyMemory();
      Own(p, LEAKY_ROOT, 4) == {LEAKY_ROOT, 0x2001, 0x2002} && Need(p, LEAKY_ROOT, 4, 0) == 2 &&
      Link(4, p[LEAKY_ROOT][0]) && KernelLeaves(p, p[LEAKY_ROOT][0].frame, 3) == {} && Link(4, p[LEAKY_ROOT][1])
  {
    hide LeakyMemory, Own, Need, KernelLeaves;
    var p := LeakyMemory();
    LeakyRow();
    OwnsItself(p, 0x2001, 3);
    OwnsItself(p, 0x2002, 3);
    LeakyNeed(p);
    LeakyOwn(p);
  }

  lemma {:induction false} LeakyRow()
    ensures var p := LeakyMemory();
      p[LEAKY_ROOT][0] == Word(0x2001, CLONE_BITS) && p[LEAKY_ROOT][1] == Word(0x2002, CLONE_BITS) &&
      p[0x2001] == ZERO_PAGE && p[0x2002] == ZERO_PAGE && forall i | 2 <= i < ENTRIES :: p[LEAKY_ROOT][i] == ZERO_WORD
  {
  }

  lemma {:induction false} LeakyOwn(p: Phys)
    requires LEAKY_ROOT < |p| && (forall i | 2 <= i < ENTRIES :: p[LEAKY_ROOT][i] == ZERO_WORD)
    requires p[LEAKY_ROOT][0] == Word(0x2001, CLONE_BITS) && p[LEAKY_ROOT][1] == Word(0x2002, CLONE_BITS)
    requires Own(p, 0x2001, 3) == {0x2001} && Own(p, 0x2002, 3) == {0x2002}
    ensures Own(p, LEAKY_ROOT, 4) == {LEAKY_ROOT, 0x2001, 0x2002}
  {
    hide Below;
    LeakyBelow(p);
    BelowOwn(p, LEAKY_ROOT, 4, 0);
    BelowOwn(p, LEAKY_ROOT, 4, 1);
    forall f | f in Own(p, LEAKY_ROOT, 4) && f != LEAKY_ROOT
      ensures f == 0x2001 || f == 0x2002
    {
      var i :| 0 <= i < Slots(4) && f in Below(p, LEAKY_ROOT, 4, i);
      assert i < 2;
    }
    assert LEAKY_ROOT in Own(p, LEAKY_ROOT, 4);
  }

  lemma {:induction false} LeakyBelow(p: Phys)
    requires LEAKY_ROOT < |p| && (forall i | 2 <= i < ENTRIES :: p[LEAKY_ROOT][i] == ZERO_WORD)
    requires p[LEAKY_ROOT][0] == Word(0x2001, CLONE_BITS) && p[LEAKY_ROOT][1] == Word(0x2002, CLONE_BITS)
    requires Own(p, 0x2001, 3) == {0x2001} && Own(p, 0x2002, 3) == {0x2002}
    ensures Below(p, LEAKY_ROOT, 4, 0) == {0x2001} && Below(p, LEAKY_ROOT, 4, 1) == {0x2002}
    ensures forall i | 2 <= i < ENTRIES :: Below(p, LEAKY_ROOT, 4, i) == {}
  {
    hide Own;
  }

  lemma {:induction false} LeakyNeed(p: Phys)
    requires |p| == FRAME_LIMIT && (forall i | 2 <= i < ENTRIES :: p[LEAKY_ROOT][i] == ZERO_WORD)
    requires p[LEAKY_ROOT][0] == Word(0x2001, CLONE_BITS) && p[LEAKY_ROOT][1] == Word(0x2002, CLONE_BITS)
    requires p[0x2001] == ZERO_PAGE && p[0x2002] == ZERO_PAGE
    ensures Need(p, LEAKY_ROOT, 4, 0) == 2
  {
    NeedNothing(p, 0x2001, 3, 0);
    NeedNothing(p, 0x2002, 3, 0);
    NeedNothing(p, LEAKY_ROOT, 4, 2);
    assert Need(p, LEAKY_ROOT, 4, 1) == 1 + Need(p, 0x2002, 3, 0) + Need(p, LEAKY_ROOT, 4, 2);
  }

  /** A process with that map is forked and its child torn down: more frames are used than before. */
  method ForkLeaks(m: MemoryManager)
    requires m.Valid() && m.phys == LeakyMemory() && {LEAKY_ROOT, 0x2001, 0x2002} <= m.Used() && m.FreeFrames() > 2
    modifies m, m.memoryMap
    ensures m.Valid() && m.Used() != old(m.Used())
  {
    LeakyMap();
    hide Own, Need, KernelLeaves, LeakyMemory;
    ForkThenReap(m, LEAKY_ROOT);
  }
}
