/**
 The frames a page map owns: the tables below a root and the user pages they map.  Level 4 is the PML4,
 level 1 a page table, level 0 a user page.  Slots 508 to 511 of a PML4 are never owned: 508 to 510 are the
 kernel's and shared by every process, 511 holds the map's own address.
 */
module OwnedFrames {
  import opened PhysicalMemory

  function Slots(level: nat): nat {
    if level == 4 then PRIVATE_SLOTS else ENTRIES
  }

  /** Does a word at this level lead to something owned?  Above level 1: a table; at level 1: a user page. */
  predicate Link(level: nat, w: Word) {
    if level == 1 then USER in w.bits else IsTable(w)
  }

  predicate IsChild(p: Phys, t: nat, level: nat, i: int) {
    t < |p| && 0 <= i < Slots(level) && Link(level, p[t][i])
  }

  ghost function Own(p: Phys, t: nat, level: nat): set<nat>
    decreases level, 1
  {
    if level == 0 then {t}
    else {t} + set i, f | 0 <= i < Slots(level) && f in Below(p, t, level, i) :: f
  }

  /** What is owned through slot `i` of table `t`. */
  ghost function Below(p: Phys, t: nat, level: nat, i: int): set<nat>
    requires level > 0
    decreases level, 0
  {
    if IsChild(p, t, level, i) then Own(p, p[t][i].frame, level - 1) else {}
  }

  /** No frame is reached twice: the frames below `t` form a tree. */
  ghost predicate OwnTree(p: Phys, t: nat, level: nat)
    decreases level
  {
    t < |p| &&
    (level == 0 ||
     ((forall i | IsChild(p, t, level, i) :: OwnTree(p, p[t][i].frame, level - 1)) &&
      (forall i :: t !in Below(p, t, level, i)) &&
      (forall i, j | i < j :: Below(p, t, level, i) !! Below(p, t, level, j))))
  }

  /** Frames that a clone of the table has to allocate below it, from slot `k` on. */
  function Need(p: Phys, t: nat, level: nat, k: nat): nat
    decreases level, Slots(level) - k
  {
    if level == 0 || t >= |p| || k >= Slots(level) then 0
    else (if Link(level, p[t][k]) then 1 + Need(p, p[t][k].frame, level - 1, 0) else 0) + Need(p, t, level, k + 1)
  }

  lemma BelowOwn(p: Phys, t: nat, level: nat, i: int)
    requires level > 0
    ensures Below(p, t, level, i) <= Own(p, t, level)
    ensures IsChild(p, t, level, i) ==> p[t][i].frame in Below(p, t, level, i)
  {
  }

  /** What a subtree owns, and its shape, depend only on the frames it owns. */
  lemma {:induction false} OwnFrame(p: Phys, q: Phys, t: nat, level: nat)
    requires AgreeOn(p, q, Own(p, t, level))
    ensures Own(q, t, level) == Own(p, t, level)
    ensures OwnTree(q, t, level) == OwnTree(p, t, level)
    decreases level
  {
    if level > 0 && t < |p| {
      assert t in Own(p, t, level);
      forall i
        ensures Below(q, t, level, i) == Below(p, t, level, i)
        ensures IsChild(p, t, level, i) ==> OwnTree(q, p[t][i].frame, level - 1) == OwnTree(p, p[t][i].frame, level - 1)
      {
        if IsChild(p, t, level, i) {
          BelowOwn(p, t, level, i);
          OwnFrame(p, q, p[t][i].frame, level - 1);
        }
      }
    }
  }

  lemma {:induction false} NeedFrame(p: Phys, q: Phys, t: nat, level: nat, k: nat)
    requires AgreeOn(p, q, Own(p, t, level))
    ensures Need(q, t, level, k) == Need(p, t, level, k)
    decreases level, Slots(level) - k
  {
    if level > 0 && t < |p| && k < Slots(level) {
      assert t in Own(p, t, level);
      if Link(level, p[t][k]) {
        assert IsChild(p, t, level, k);
        BelowOwn(p, t, level, k);
        NeedFrame(p, q, p[t][k].frame, level - 1, 0);
      }
      NeedFrame(p, q, t, level, k + 1);
    }
  }

  /** Hanging a new subtree in an empty slot adds exactly its frames and keeps the tree a tree. */
  lemma {:induction false} AddChild(p: Phys, q: Phys, t: nat, level: nat, i: nat)
    requires 0 < level && OwnTree(p, t, level) && i < Slots(level)
    requires !Link(level, p[t][i]) && |q| == |p|
    requires q[t] == p[t][i := q[t][i]] && Link(level, q[t][i])
    requires AgreeOn(p, q, Own(p, t, level) - {t})
    requires OwnTree(q, q[t][i].frame, level - 1)
    requires Own(q, q[t][i].frame, level - 1) !! Own(p, t, level)
    ensures OwnTree(q, t, level)
    ensures Own(q, t, level) == Own(p, t, level) + Own(q, q[t][i].frame, level - 1)
  {
    forall j: int
      ensures Below(q, t, level, j) == if j == i then Own(q, q[t][i].frame, level - 1) else Below(p, t, level, j)
      ensures Below(p, t, level, j) <= Own(p, t, level)
      ensures j != i && IsChild(q, t, level, j) ==> OwnTree(q, q[t][j].frame, level - 1)
    {
      if j != i && IsChild(q, t, level, j) {
        assert IsChild(p, t, level, j);
        BelowOwn(p, t, level, j);
        OwnFrame(p, q, p[t][j].frame, level - 1);
      }
      BelowOwn(p, t, level, j);
    }
    assert t in Own(p, t, level);
    forall f ensures f in Own(q, t, level) <==> f in Own(p, t, level) + Below(q, t, level, i) {
      BelowOwn(q, t, level, i);
      if f in Own(p, t, level) && f != t {
        var j :| 0 <= j < Slots(level) && f in Below(p, t, level, j);
        BelowOwn(q, t, level, j);
      }
    }
  }
}
