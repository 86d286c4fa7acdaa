/**
 memmgr_clone_page_map and memmgr_clear_page_map.  The code nests one loop per level; the loops over the lower
 three levels run the same body, and are one method here that enters itself for the next level.
 */
module PageMapCloning {
  import opened PhysicalMemory
  import opened OwnedFrames
  import opened CloneRelation
  import opened MemoryManagers

  /** A clone of `src` (as it was in `p0`) into `dst` that has done its first `i` slots.  `u0` were the used frames. */
  ghost predicate CloneState(p0: Phys, u0: set<nat>, src: nat, p: Phys, used: set<nat>, dst: nat, level: nat, i: nat)
    requires level > 0
  {
    dst < |p0| && src < |p0| && (forall f <- u0 :: f < |p0|) && AgreeOn(p0, p, u0 - {dst}) && i <= Slots(level) &&
    (forall j | 0 <= j < i :: ClonedWord(p0, p0[src][j], p, p[dst][j], level)) &&
    (forall j | i <= j < ENTRIES :: p[dst][j] == ZERO_WORD) &&
    OwnTree(p, dst, level) && Own(p, dst, level) !! u0 - {dst} && used == u0 + Own(p, dst, level)
  }

  lemma {:induction false} KeepClonedWords(p0: Phys, src: nat, p: Phys, q: Phys, dst: nat, level: nat, i: nat)
    requires 0 < level && src < |p0| && i <= Slots(level) && OwnTree(p, dst, level)
    requires forall j | 0 <= j < i :: ClonedWord(p0, p0[src][j], p, p[dst][j], level)
    requires AgreeOn(p, q, Own(p, dst, level) - {dst})
    requires forall j | 0 <= j < i :: q[dst][j] == p[dst][j]
    ensures forall j | 0 <= j < i :: ClonedWord(p0, p0[src][j], q, q[dst][j], level)
  {
    forall j | 0 <= j < i
      ensures ClonedWord(p0, p0[src][j], q, q[dst][j], level)
    {
      if Link(level, p0[src][j]) {
        assert ClonedWord(p0, p0[src][j], p, p[dst][j], level);
        assert IsChild(p, dst, level, j);
        BelowOwn(p, dst, level, j);
        assert dst !in Below(p, dst, level, j);
        ClonedFrame(p0, p0[src][j].frame, p, q, p[dst][j].frame, level - 1);
      }
    }
  }

  lemma {:induction false} OwnNothingNew(p: Phys, q: Phys, dst: nat, level: nat, i: nat)
    requires 0 < level && OwnTree(p, dst, level) && i < ENTRIES
    requires |q| == |p| && q == Store(p, dst, i, q[dst][i])
    requires i >= Slots(level) || (!Link(level, p[dst][i]) && !Link(level, q[dst][i]))
    ensures OwnTree(q, dst, level) && Own(q, dst, level) == Own(p, dst, level)
  {
    forall j: int
      ensures Below(q, dst, level, j) == Below(p, dst, level, j)
      ensures IsChild(q, dst, level, j) ==> OwnTree(q, q[dst][j].frame, level - 1)
    {
      if IsChild(p, dst, level, j) {
        BelowOwn(p, dst, level, j);
        OwnFrame(p, q, p[dst][j].frame, level - 1);
      }
    }
  }

  /** Repeating a word that owns nothing finishes a slot. */
  lemma {:induction false} RepeatSlot(p0: Phys, u0: set<nat>, src: nat, p: Phys, used: set<nat>, dst: nat, level: nat,
      i: nat)
    requires 0 < level && i < Slots(level) && CloneState(p0, u0, src, p, used, dst, level, i)
    requires !Link(level, p0[src][i])
    ensures CloneState(p0, u0, src, Store(p, dst, i, p0[src][i]), used, dst, level, i + 1)
  {
    var q := Store(p, dst, i, p0[src][i]);
    OwnNothingNew(p, q, dst, level, i);
    KeepClonedWords(p0, src, p, q, dst, level, i);
  }

  /** Hanging a finished clone of the slot's subtree finishes the slot. */
  lemma {:induction false} FillSlot(p0: Phys, u0: set<nat>, src: nat, p: Phys, used: set<nat>, q: Phys, dst: nat,
      level: nat, i: nat)
    requires 0 < level && i < Slots(level) && CloneState(p0, u0, src, p, used, dst, level, i)
    requires Link(level, p0[src][i]) && u0 <= used && dst in u0
    requires AgreeOn(p, q, used - {dst}) && q[dst] == p[dst][i := q[dst][i]] && q[dst][i].bits == CLONE_BITS
    requires Cloned(p0, p0[src][i].frame, q, q[dst][i].frame, level - 1)
    requires OwnTree(q, q[dst][i].frame, level - 1) && Own(q, q[dst][i].frame, level - 1) !! used
    ensures CloneState(p0, u0, src, q, used + Own(q, q[dst][i].frame, level - 1), dst, level, i + 1)
  {
    assert ClonedWord(p0, p0[src][i], q, q[dst][i], level);
    AddChild(p, q, dst, level, i);
    KeepClonedWords(p0, src, p, q, dst, level, i);
  }

  /** What the next slot's subtree owns and needs, unchanged since the clone began. */
  lemma {:induction false} SourceSlot(p0: Phys, u0: set<nat>, src: nat, p: Phys, dst: nat, level: nat, i: nat)
    requires 0 < level && i < Slots(level) && src < |p0| && Link(level, p0[src][i])
    requires Own(p0, src, level) <= u0 - {dst} && AgreeOn(p0, p, u0 - {dst})
    ensures Own(p, p0[src][i].frame, level - 1) == Own(p0, p0[src][i].frame, level - 1) <= u0 - {dst}
    ensures Need(p, p0[src][i].frame, level - 1, 0) == Need(p0, p0[src][i].frame, level - 1, 0)
    ensures Need(p0, src, level, i) == 1 + Need(p0, p0[src][i].frame, level - 1, 0) + Need(p0, src, level, i + 1)
  {
    BelowOwn(p0, src, level, i);
    assert IsChild(p0, src, level, i);
    OwnFrame(p0, p, p0[src][i].frame, level - 1);
    NeedFrame(p0, p, p0[src][i].frame, level - 1, 0);
  }

  lemma {:induction false} CloneBegins(p0: Phys, u0: set<nat>, src: nat, dst: nat, level: nat)
    requires 0 < level && src < |p0| && dst < |p0| && dst in u0 && p0[dst] == ZERO_PAGE
    requires forall f <- u0 :: f < |p0|
    ensures CloneState(p0, u0, src, p0, u0, dst, level, 0)
  {
    assert forall i :: !IsChild(p0, dst, level, i);
    assert Own(p0, dst, level) == {dst};
  }

  lemma {:induction false} CloneEnds(p0: Phys, u0: set<nat>, src: nat, p: Phys, used: set<nat>, dst: nat, level: nat)
    requires 0 < level && CloneState(p0, u0, src, p, used, dst, level, Slots(level))
    ensures AgreeOn(p0, p, u0 - {dst}) && Cloned(p0, src, p, dst, level)
    ensures OwnTree(p, dst, level) && Own(p, dst, level) !! u0 - {dst} && used == u0 + Own(p, dst, level)
    ensures Need(p0, src, level, Slots(level)) == 0
  {
  }

  /** The clone reads its source as it was at the start. */
  lemma {:induction false} SourceSame(p0: Phys, u0: set<nat>, src: nat, p: Phys, used: set<nat>, dst: nat, level: nat,
      i: nat)
    requires 0 < level && CloneState(p0, u0, src, p, used, dst, level, i) && dst in u0
    requires Own(p0, src, level) <= u0 - {dst}
    ensures src < |p| == |p0| && dst < |p| && p[src] == p0[src]
    ensures AgreeOn(p0, p, u0 - {dst}) && forall f <- u0 :: f < |p0|
    ensures u0 <= used && (i < Slots(level) ==> p[dst][i] == ZERO_WORD)
    ensures i < Slots(level) && !Link(level, p0[src][i]) ==> Need(p0, src, level, i) == Need(p0, src, level, i + 1)
  {
    assert src in Own(p0, src, level);
  }

  /** The new frame `f` in the slot, holding `page`. */
  function Install(p: Phys, dst: nat, i: nat, f: FrameNo, page: Page): (q: Phys)
    requires dst < |p| && i < ENTRIES && f < |p|
    ensures |q| == |p|
  {
    Store(p, dst, i, Word(f, CLONE_BITS))[f := page]
  }

  /** A user page gets its copy. */
  lemma {:induction false} FillPage(p0: Phys, u0: set<nat>, src: nat, p: Phys, used: set<nat>, f: FrameNo, dst: nat,
      i: nat)
    requires i < ENTRIES && CloneState(p0, u0, src, p, used, dst, 1, i) && dst in u0 && u0 <= used
    requires Own(p0, src, 1) <= u0 - {dst} && Link(1, p0[src][i]) && f !in used && f < |p|
    ensures p0[src][i].frame < |p|
    ensures CloneState(p0, u0, src, Install(p, dst, i, f, p[p0[src][i].frame]), used + {f as nat}, dst, 1, i + 1)
  {
    SourceSlot(p0, u0, src, p, dst, 1, i);
    var w := p0[src][i];
    var q := Install(p, dst, i, f, p[w.frame]);
    assert q[dst] == p[dst][i := q[dst][i]];
    FillSlot(p0, u0, src, p, used, q, dst, 1, i);
  }

  /** An empty table is in place, and what it will be filled from is untouched. */
  lemma {:induction false} InstallTable(p0: Phys, u0: set<nat>, src: nat, p: Phys, used: set<nat>, f: FrameNo,
      dst: nat, level: nat, i: nat)
    requires 1 < level && i < Slots(level) && CloneState(p0, u0, src, p, used, dst, level, i) && dst in u0 && u0 <= used
    requires Own(p0, src, level) <= u0 - {dst} && Link(level, p0[src][i]) && f !in used && f < |p|
    ensures var p1 := Install(p, dst, i, f, ZERO_PAGE);
      Own(p1, p0[src][i].frame, level - 1) <= used - {f as nat} && p1[f] == ZERO_PAGE &&
      Need(p1, p0[src][i].frame, level - 1, 0) == Need(p0, p0[src][i].frame, level - 1, 0)
  {
    SourceSlot(p0, u0, src, Install(p, dst, i, f, ZERO_PAGE), dst, level, i);
  }

  /** The table is filled. */
  lemma {:induction false} FillTable(p0: Phys, u0: set<nat>, src: nat, p: Phys, used: set<nat>, f: FrameNo, q: Phys,
      dst: nat, level: nat, i: nat)
    requires 1 < level && i < Slots(level) && CloneState(p0, u0, src, p, used, dst, level, i) && dst in u0 && u0 <= used
    requires Own(p0, src, level) <= u0 - {dst} && Link(level, p0[src][i]) && f !in used && f < |p|
    requires AgreeOn(Install(p, dst, i, f, ZERO_PAGE), q, used)
    requires Cloned(Install(p, dst, i, f, ZERO_PAGE), p0[src][i].frame, q, f, level - 1)
    requires OwnTree(q, f, level - 1) && Own(q, f, level - 1) !! used
    ensures CloneState(p0, u0, src, q, used + {f as nat} + Own(q, f, level - 1), dst, level, i + 1)
  {
    assert f as nat in Own(q, f, level - 1);
    assert used + {f as nat} + Own(q, f, level - 1) == used + Own(q, f, level - 1);
    hide CloneState, Cloned, Own, OwnTree, Need;
    SourceSame(p0, u0, src, p, used, dst, level, i);
    var p1 := Install(p, dst, i, f, ZERO_PAGE);
    SourceSlot(p0, u0, src, p1, dst, level, i);
    ClonedSource(p1, p0, p0[src][i].frame, q, f, level - 1);
    assert q[dst] == p1[dst] == p[dst][i := Word(f, CLONE_BITS)];
    FillSlot(p0, u0, src, p, used, q, dst, level, i);
  }

  /** One loop nest of the clone: fills the empty table `dst` with a clone of the table `src`. */
  method CloneTable(m: MemoryManager, src: nat, dst: nat, level: nat)
    requires m.Valid() && 1 <= level <= 3
    requires Own(m.phys, src, level) <= m.Used() - {dst} && dst in m.Used() && m.phys[dst] == ZERO_PAGE
    requires m.FreeFrames() >= Need(m.phys, src, level, 0)
    modifies m, m.memoryMap
    ensures m.Valid()
    ensures AgreeOn(old(m.phys), m.phys, old(m.Used()) - {dst})
    ensures Cloned(old(m.phys), src, m.phys, dst, level)
    ensures OwnTree(m.phys, dst, level) && Own(m.phys, dst, level) !! old(m.Used()) - {dst}
    ensures m.Used() == old(m.Used()) + Own(m.phys, dst, level)
    ensures m.FreeFrames() >= old(m.FreeFrames()) - Need(old(m.phys), src, level, 0)
    decreases level, 1
  {
    ghost var p0, u0, needed := m.phys, m.Used(), Need(m.phys, src, level, 0);
    assert src in Own(p0, src, level);
    hide CloneState, AgreeOn, Own, OwnTree, Need, Cloned;
    CloneBegins(p0, u0, src, dst, level);
    for i := 0 to ENTRIES
      invariant m.Valid() && CloneState(p0, u0, src, m.phys, m.Used(), dst, level, i)
      invariant m.FreeFrames() >= old(m.FreeFrames()) - needed + Need(p0, src, level, i)
    {
      SourceSame(p0, u0, src, m.phys, m.Used(), dst, level, i);
      var w := m.phys[src][i];
      if (level > 1 && LARGE in w.bits) || (level == 1 && USER !in w.bits) {
        RepeatSlot(p0, u0, src, m.phys, m.Used(), dst, level, i);
        m.phys := Store(m.phys, dst, i, w);
      } else if w == ZERO_WORD {
        RepeatSlot(p0, u0, src, m.phys, m.Used(), dst, level, i);
        StoreSame(m.phys, dst, i);
      } else {
        if level == 1 {
          CopyPage(m, src, dst, i, p0, u0);
        } else {
          CloneSlot(m, src, dst, level, i, p0, u0);
        }
      }
    }
    CloneEnds(p0, u0, src, m.phys, m.Used(), dst, level);
  }

  /** The innermost loop's copy: a new frame for the slot, holding the page's bytes. */
  method CopyPage(m: MemoryManager, src: nat, dst: nat, i: nat, ghost p0: Phys, ghost u0: set<nat>)
    requires m.Valid() && i < ENTRIES && dst in u0
    requires CloneState(p0, u0, src, m.phys, m.Used(), dst, 1, i)
    requires Own(p0, src, 1) <= u0 - {dst} && Link(1, p0[src][i])
    requires m.FreeFrames() >= Need(p0, src, 1, i)
    modifies m, m.memoryMap
    ensures m.Valid() && CloneState(p0, u0, src, m.phys, m.Used(), dst, 1, i + 1)
    ensures m.FreeFrames() >= old(m.FreeFrames()) - Need(p0, src, 1, i) + Need(p0, src, 1, i + 1)
  {
    ghost var p, used := m.phys, m.Used();
    SourceSame(p0, u0, src, p, used, dst, 1, i);
    SourceSlot(p0, u0, src, p, dst, 1, i);
    var source := m.phys[src][i].frame;
    assert source as nat in Own(p0, source, 0);
    hide CloneState, Own, OwnTree, Need, AgreeOn;
    var f := m.KallocFrame();
    FillPage(p0, u0, src, p, used, f, dst, i);
    m.phys := Store(m.phys, dst, i, Word(f, CLONE_BITS));
    m.phys := m.phys[f := m.phys[source]];
    assert m.phys == Install(p, dst, i, f, p[source]);
  }

  /** The outer loops' copy: an empty table for the slot, then the next loop nest. */
  method CloneSlot(m: MemoryManager, src: nat, dst: nat, level: nat, i: nat, ghost p0: Phys, ghost u0: set<nat>)
    requires m.Valid() && 2 <= level <= 4 && i < Slots(level) && dst in u0
    requires CloneState(p0, u0, src, m.phys, m.Used(), dst, level, i)
    requires Own(p0, src, level) <= u0 - {dst} && Link(level, p0[src][i])
    requires m.FreeFrames() >= Need(p0, src, level, i)
    modifies m, m.memoryMap
    ensures m.Valid() && CloneState(p0, u0, src, m.phys, m.Used(), dst, level, i + 1)
    ensures m.FreeFrames() >= old(m.FreeFrames()) - Need(p0, src, level, i) + Need(p0, src, level, i + 1)
    decreases level, 0
  {
    ghost var p, used := m.phys, m.Used();
    SourceSame(p0, u0, src, p, used, dst, level, i);
    SourceSlot(p0, u0, src, p, dst, level, i);
    hide CloneState, Own, OwnTree, Need, Cloned, AgreeOn;
    var source := m.phys[src][i].frame;
    var f := m.KallocFrame();
    InstallTable(p0, u0, src, p, used, f, dst, level, i);
    m.phys := Store(m.phys, dst, i, Word(f, CLONE_BITS));
    m.phys := m.phys[f := ZERO_PAGE];
    CloneTable(m, source, f, level - 1);
    FillTable(p0, u0, src, p, used, f, m.phys, dst, level, i);
  }

  /** The clone of a root that has done its first `i` of 511 slots. */
  ghost predicate RootState(p0: Phys, u0: set<nat>, src: nat, p: Phys, used: set<nat>, dst: nat, i: nat) {
    if i <= PRIVATE_SLOTS then CloneState(p0, u0, src, p, used, dst, 4, i)
    else
      i <= 511 && CloneDone(p0, u0, src, p, used, dst) &&
      (forall j | PRIVATE_SLOTS <= j < i :: p[dst][j] == p0[src][j]) &&
      (forall j | i <= j < ENTRIES :: p[dst][j] == ZERO_WORD)
  }

  ghost predicate CloneDone(p0: Phys, u0: set<nat>, src: nat, p: Phys, used: set<nat>, dst: nat) {
    src < |p0| && dst < |p0| && AgreeOn(p0, p, u0 - {dst}) && Cloned(p0, src, p, dst, 4) && OwnTree(p, dst, 4) &&
    Own(p, dst, 4) !! u0 - {dst} && used == u0 + Own(p, dst, 4)
  }

  /** The kernel's slots are repeated, and slot 511 holds the new map's own address. */
  ghost predicate HighSlots(p0: Phys, src: nat, p: Phys, dst: FrameNo) {
    src < |p0| && dst < |p| && p[dst][511] == Word(dst, {}) &&
    forall i | PRIVATE_SLOTS <= i < 511 :: p[dst][i] == p0[src][i]
  }

  /** A store into one of the slots 508 to 511 does not touch what the clone owns. */
  lemma {:induction false} StoreHighSlot(p0: Phys, u0: set<nat>, src: nat, p: Phys, used: set<nat>, dst: nat, i: nat,
      w: Word)
    requires CloneDone(p0, u0, src, p, used, dst) && PRIVATE_SLOTS <= i < ENTRIES
    ensures CloneDone(p0, u0, src, Store(p, dst, i, w), used, dst)
  {
    var q := Store(p, dst, i, w);
    OwnNothingNew(p, q, dst, 4, i);
    KeepClonedWords(p0, src, p, q, dst, 4, PRIVATE_SLOTS);
  }

  lemma {:induction false} RepeatRootSlot(p0: Phys, u0: set<nat>, src: nat, p: Phys, used: set<nat>, dst: nat, i: nat)
    requires i < 511 && RootState(p0, u0, src, p, used, dst, i)
    requires src < |p0| && (i < PRIVATE_SLOTS ==> !Link(4, p0[src][i]))
    ensures RootState(p0, u0, src, Store(p, dst, i, p0[src][i]), used, dst, i + 1)
  {
    if i < PRIVATE_SLOTS {
      RepeatSlot(p0, u0, src, p, used, dst, 4, i);
    } else {
      if i == PRIVATE_SLOTS {
        CloneEnds(p0, u0, src, p, used, dst, 4);
      }
      StoreHighSlot(p0, u0, src, p, used, dst, i, p0[src][i]);
    }
  }

  lemma {:induction false} RootSame(p0: Phys, u0: set<nat>, src: nat, p: Phys, used: set<nat>, dst: nat, i: nat)
    requires RootState(p0, u0, src, p, used, dst, i) && i < 511 && dst in u0
    requires Own(p0, src, 4) <= u0 - {dst}
    ensures src < |p| == |p0| && dst < |p| && p[src] == p0[src] && p[dst][i] == ZERO_WORD
    ensures i < PRIVATE_SLOTS ==> CloneState(p0, u0, src, p, used, dst, 4, i)
    ensures i >= PRIVATE_SLOTS || !Link(4, p0[src][i]) ==> Need(p0, src, 4, i) == Need(p0, src, 4, i + 1)
  {
    assert src in Own(p0, src, 4);
  }

  lemma {:induction false} RootEnds(p0: Phys, u0: set<nat>, src: nat, p: Phys, used: set<nat>, dst: FrameNo)
    requires RootState(p0, u0, src, p, used, dst, 511)
    ensures |p| == |p0| && dst < |p| && src < |p0|
    ensures var q := Store(p, dst, 511, Word(dst, {}));
      CloneDone(p0, u0, src, q, used, dst) && HighSlots(p0, src, q, dst)
  {
    StoreHighSlot(p0, u0, src, p, used, dst, 511, Word(dst, {}));
  }

  lemma {:induction false} RootBegins(p0: Phys, u0: set<nat>, src: nat, dst: nat)
    requires src < |p0| && dst < |p0| && dst in u0 && p0[dst] == ZERO_PAGE && forall f <- u0 :: f < |p0|
    ensures RootState(p0, u0, src, p0, u0, dst, 0)
  {
    CloneBegins(p0, u0, src, dst, 4);
  }

  lemma {:induction false} RootCloned(p0: Phys, u0: set<nat>, src: nat, p: Phys, used: set<nat>, dst: nat, i: nat)
    requires i < PRIVATE_SLOTS && CloneState(p0, u0, src, p, used, dst, 4, i + 1)
    ensures RootState(p0, u0, src, p, used, dst, i + 1)
  {
  }

  /** Emptying the new root first makes no difference to what is cloned. */
  lemma {:induction false} CloneDoneBefore(p: Phys, u0: set<nat>, src: nat, q: Phys, used: set<nat>, dst: FrameNo)
    requires dst < |p| && Own(p, src, 4) <= u0 - {dst} && CloneDone(p[dst := ZERO_PAGE], u0, src, q, used, dst)
    requires src < |p| && p[dst := ZERO_PAGE][src] == p[src]
    ensures CloneDone(p, u0, src, q, used, dst)
    ensures HighSlots(p[dst := ZERO_PAGE], src, q, dst) ==> HighSlots(p, src, q, dst)
  {
    hide OwnTree, Cloned, Own;
    OwnFrame(p, p[dst := ZERO_PAGE], src, 4);
    assert AgreeOn(p, q, u0 - {dst});
    ClonedSource(p[dst := ZERO_PAGE], p, src, q, dst, 4);
  }

  /** memmgr_clone_page_map: `dst` is a root frame the caller has allocated. */
  method CloneMap(m: MemoryManager, src: nat, dst: FrameNo)
    requires m.Valid() && dst in m.Used() && Own(m.phys, src, 4) <= m.Used() - {dst}
    requires m.FreeFrames() >= Need(m.phys, src, 4, 0)
    modifies m, m.memoryMap
    ensures m.Valid()
    ensures CloneDone(old(m.phys), old(m.Used()), src, m.phys, m.Used(), dst)
    ensures HighSlots(old(m.phys), src, m.phys, dst)
  {
    ghost var before, u0 := m.phys, m.Used();
    assert src in Own(before, src, 4);
    OwnFrame(before, before[dst := ZERO_PAGE], src, 4);
    NeedFrame(before, before[dst := ZERO_PAGE], src, 4, 0);
    assert before[dst := ZERO_PAGE][src] == before[src];
    hide *;
    m.phys := m.phys[dst := ZERO_PAGE];
    ghost var p0 := m.phys;
    CloneRoot(m, src, dst);
    RootEnds(p0, u0, src, m.phys, m.Used(), dst);
    m.phys := Store(m.phys, dst, 511, Word(dst, {}));
    CloneDoneBefore(before, u0, src, m.phys, m.Used(), dst);
  }

  /** The outermost loop. */
  method CloneRoot(m: MemoryManager, src: nat, dst: FrameNo)
    requires m.Valid() && dst in m.Used() && Own(m.phys, src, 4) <= m.Used() - {dst} && m.phys[dst] == ZERO_PAGE
    requires m.FreeFrames() >= Need(m.phys, src, 4, 0)
    modifies m, m.memoryMap
    ensures m.Valid() && RootState(old(m.phys), old(m.Used()), src, m.phys, m.Used(), dst, 511)
  {
    ghost var p0, u0 := m.phys, m.Used();
    assert src in Own(p0, src, 4);
    RootBegins(p0, u0, src, dst);
    hide *;
    for i := 0 to 511
      invariant m.Valid() && RootState(p0, u0, src, m.phys, m.Used(), dst, i)
      invariant m.FreeFrames() >= Need(p0, src, 4, i)
    {
      CloneRootSlot(m, src, dst, i, p0, u0);
    }
  }

  /** The outermost loop's body. */
  method CloneRootSlot(m: MemoryManager, src: nat, dst: FrameNo, i: nat, ghost p0: Phys, ghost u0: set<nat>)
    requires m.Valid() && i < 511 && dst in u0 && RootState(p0, u0, src, m.phys, m.Used(), dst, i)
    requires Own(p0, src, 4) <= u0 - {dst} && m.FreeFrames() >= Need(p0, src, 4, i)
    modifies m, m.memoryMap
    ensures m.Valid() && RootState(p0, u0, src, m.phys, m.Used(), dst, i + 1)
    ensures m.FreeFrames() >= Need(p0, src, 4, i + 1)
  {
    hide CloneState, Own, Need, AgreeOn, RootState, CloneDone;
    RootSame(p0, u0, src, m.phys, m.Used(), dst, i);
    var w := m.phys[src][i];
    if LARGE in w.bits {
      RepeatRootSlot(p0, u0, src, m.phys, m.Used(), dst, i);
      m.phys := Store(m.phys, dst, i, w);
    } else if w == ZERO_WORD {
      RepeatRootSlot(p0, u0, src, m.phys, m.Used(), dst, i);
      StoreSame(m.phys, dst, i);
    } else if i == 508 || i == 509 || i == 510 {
      RepeatRootSlot(p0, u0, src, m.phys, m.Used(), dst, i);
      m.phys := Store(m.phys, dst, i, w);
    } else {
      CloneSlot(m, src, dst, 4, i, p0, u0);
      RootCloned(p0, u0, src, m.phys, m.Used(), dst, i);
    }
  }

  /** One loop nest of the teardown: gives back every present page and table below `t`, reading as it goes. */
  method ClearTable(m: MemoryManager, t: nat, level: nat)
    requires m.memoryMap.Length == BITMAP_SIZE && |m.phys| == FRAME_LIMIT && 1 <= level <= 3 && t < |m.phys|
    modifies m`idx, m.memoryMap
    ensures m.Used() == old(m.Used()) - FreedBelow(m.phys, t, level)
    ensures old(m.Valid()) ==> (m.Valid() <==> 0 !in FreedBelow(m.phys, t, level))
    decreases level
  {
    for i := 0 to ENTRIES
      invariant old(m.Valid()) && 0 in m.Used() ==> m.Valid()
      invariant forall f :: f in m.Used() <==>
        f in old(m.Used()) && forall j | 0 <= j < i :: f !in Freed(m.phys, m.phys[t][j], level)
    {
      var w := m.phys[t][i];
      assert Freed(m.phys, w, level) <= FreedBelow(m.phys, t, level);
      if PRESENT !in w.bits {
        continue;
      }
      if level > 1 {
        if LARGE in w.bits {
          continue;
        }
        ClearTable(m, w.frame, level - 1);
      }
      m.KfreeFrame(w.frame);
    }
  }

  /** memmgr_clear_page_map: slot 0, its table and the root itself; the other slots are not looked at. */
  method ClearMap(m: MemoryManager, root: FrameNo)
    requires m.memoryMap.Length == BITMAP_SIZE && |m.phys| == FRAME_LIMIT
    modifies m`idx, m.memoryMap
    ensures m.Used() == old(m.Used()) - FreedBelow(m.phys, m.phys[root][0].frame, 3) -
      {m.phys[root][0].frame as nat, root as nat}
    ensures old(m.Valid()) ==>
      (m.Valid() <==> root != 0 && m.phys[root][0].frame != 0 && 0 !in FreedBelow(m.phys, m.phys[root][0].frame, 3))
  {
    var pdp := m.phys[root][0].frame;
    ClearTable(m, pdp, 3);
    m.KfreeFrame(m.phys[root][0].frame);
    m.KfreeFrame(root);
    assert m.Valid() ==> 0 in m.Used();
  }
}
