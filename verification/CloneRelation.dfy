/**
 When is one page map a clone of another, and what does clearing such a clone give back?  Stated between
 two memories, before and after, and independent of the loops that build the clone.
 */
module CloneRelation {
  import opened PhysicalMemory
  import opened OwnedFrames

  /** Below `t'` in `q` hangs a copy of what hangs below `t` in `p`; a level-0 frame is a page of data. */
  ghost predicate Cloned(p: Phys, t: nat, q: Phys, t': nat, level: nat)
    decreases level, 1
  {
    t < |p| && t' < |q| &&
    if level == 0 then q[t'] == p[t]
    else forall i | 0 <= i < Slots(level) :: ClonedWord(p, p[t][i], q, q[t'][i], level)
  }

  /** What the map owns is copied to a frame of its own; empty words, large pages and kernel pages are repeated. */
  ghost predicate ClonedWord(p: Phys, w: Word, q: Phys, w': Word, level: nat)
    requires level > 0
    decreases level, 0
  {
    if Link(level, w) then w'.bits == CLONE_BITS && Cloned(p, w.frame, q, w'.frame, level - 1) else w' == w
  }

  lemma {:induction false} ClonedFrame(p: Phys, t: nat, q: Phys, r: Phys, t': nat, level: nat)
    requires Cloned(p, t, q, t', level) && AgreeOn(q, r, Own(q, t', level))
    ensures Cloned(p, t, r, t', level)
    decreases level
  {
    assert t' in Own(q, t', level);
    if level > 0 {
      forall i | 0 <= i < Slots(level)
        ensures ClonedWord(p, p[t][i], r, r[t'][i], level)
      {
        if Link(level, p[t][i]) {
          assert ClonedWord(p, p[t][i], q, q[t'][i], level);
          BelowOwn(q, t', level, i);
          ClonedFrame(p, p[t][i].frame, q, r, q[t'][i].frame, level - 1);
        }
      }
    }
  }

  lemma {:induction false} ClonedSource(p: Phys, p': Phys, t: nat, q: Phys, t': nat, level: nat)
    requires Cloned(p, t, q, t', level) && AgreeOn(p, p', Own(p, t, level))
    ensures Cloned(p', t, q, t', level)
    decreases level
  {
    assert t in Own(p, t, level);
    if level > 0 {
      forall i | 0 <= i < Slots(level)
        ensures ClonedWord(p', p'[t][i], q, q[t'][i], level)
      {
        assert ClonedWord(p, p[t][i], q, q[t'][i], level);
        if Link(level, p[t][i]) {
          BelowOwn(p, t, level, i);
          ClonedSource(p, p', p[t][i].frame, q, q[t'][i].frame, level - 1);
        }
      }
    }
  }

  /** Frames memmgr_clear_page_map gives back for one word of a level-`level` table. */
  ghost function Freed(p: Phys, w: Word, level: nat): set<nat>
    decreases level, 0
  {
    if PRESENT !in w.bits || (level > 1 && LARGE in w.bits) then {}
    else {w.frame as nat} + if level > 1 then FreedBelow(p, w.frame, level - 1) else {}
  }

  ghost function FreedBelow(p: Phys, t: nat, level: nat): set<nat>
    decreases level, 1
  {
    if t >= |p| then {} else set i, f | 0 <= i < ENTRIES && f in Freed(p, p[t][i], level) :: f
  }

  /** Frames of the present kernel pages that a clone of `t` repeats rather than copies. */
  ghost function KernelLeaves(p: Phys, t: nat, level: nat): set<nat>
    decreases level, 1
  {
    if t >= |p| || level == 0 then {} else set i, f | 0 <= i < ENTRIES && f in KernelLeavesOf(p, p[t][i], level) :: f
  }

  ghost function KernelLeavesOf(p: Phys, w: Word, level: nat): set<nat>
    requires level > 0
    decreases level, 0
  {
    if level == 1 then (if PRESENT in w.bits && USER !in w.bits then {w.frame as nat} else {})
    else if Link(level, w) then KernelLeaves(p, w.frame, level - 1) else {}
  }

  /** Clearing a cloned table frees what the clone allocated, and the kernel pages it shares with its source. */
  lemma {:induction false} FreedOfClone(p: Phys, t: nat, q: Phys, t': nat, level: nat)
    requires 1 <= level <= 3 && Cloned(p, t, q, t', level)
    ensures {t'} + FreedBelow(q, t', level) == Own(q, t', level) + KernelLeaves(p, t, level)
    decreases level, 1
  {
    forall i | 0 <= i < ENTRIES
      ensures Freed(q, q[t'][i], level) == Below(q, t', level, i) + KernelLeavesOf(p, p[t][i], level)
    {
      FreedOfClonedWord(p, t, q, t', level, i);
    }
    FreedUnion(p, t, q, t', level);
  }

  lemma {:induction false} FreedOfClonedWord(p: Phys, t: nat, q: Phys, t': nat, level: nat, i: nat)
    requires 1 <= level <= 3 && Cloned(p, t, q, t', level) && i < ENTRIES
    ensures Freed(q, q[t'][i], level) == Below(q, t', level, i) + KernelLeavesOf(p, p[t][i], level)
    decreases level, 0
  {
    assert ClonedWord(p, p[t][i], q, q[t'][i], level);
    if Link(level, p[t][i]) && level > 1 {
      FreedOfClone(p, p[t][i].frame, q, q[t'][i].frame, level - 1);
    }
  }

  lemma FreedUnion(p: Phys, t: nat, q: Phys, t': nat, level: nat)
    requires 1 <= level <= 3 && t < |p| && t' < |q|
    requires forall i | 0 <= i < ENTRIES ::
      Freed(q, q[t'][i], level) == Below(q, t', level, i) + KernelLeavesOf(p, p[t][i], level)
    ensures {t'} + FreedBelow(q, t', level) == Own(q, t', level) + KernelLeaves(p, t, level)
  {
    hide Freed, KernelLeavesOf;
    forall f | f in FreedBelow(q, t', level)
      ensures f in Own(q, t', level) + KernelLeaves(p, t, level)
    {
      var i :| 0 <= i < ENTRIES && f in Freed(q, q[t'][i], level);
      assert f in Below(q, t', level, i) || f in KernelLeavesOf(p, p[t][i], level);
    }
    forall f | f in KernelLeaves(p, t, level)
      ensures f in FreedBelow(q, t', level)
    {
      var i :| 0 <= i < ENTRIES && f in KernelLeavesOf(p, p[t][i], level);
      assert f in Freed(q, q[t'][i], level);
    }
    forall f | f in Own(q, t', level) && f != t'
      ensures f in FreedBelow(q, t', level)
    {
      var i :| 0 <= i < Slots(level) && f in Below(q, t', level, i);
      assert f in Freed(q, q[t'][i], level);
    }
    assert t' in Own(q, t', level);
  }
}
