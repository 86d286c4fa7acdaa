/**
 What a page map holds for itself and what it shares with the maps of other processes.  A map's private slots lead to
 tables and user pages of its own; kernel pages and the tables behind slots 508 to 510 are common property.
 */
module MapViews {
  import opened Options
  import opened PhysicalMemory
  import opened OwnedFrames
  import opened FlatMap
  import opened MemoryManagers
  import opened CloneTheorems

  /** At the end of the path is the frame `f`, a table or a user page that belongs to this map. */
  ghost predicate Hangs(p: Phys, root: nat, a: Path, f: nat) {
    PrivatePath(a) &&
    if |a| <= 3 then TableAt(p, root, a) == Some(f)
    else |a| == 4 && USER in Flat(p, root, a).bits && Flat(p, root, a).frame == f
  }

  ghost predicate Held(p: Phys, root: nat, f: nat) {
    exists a: Path :: Hangs(p, root, a, f)
  }

  /** At the end of the path is the frame `f`, a table or a present page that is the kernel's. */
  ghost predicate Lent(p: Phys, root: nat, a: Path, f: nat) {
    ValidPath(a) &&
    if |a| <= 3 then !PrivatePath(a) && TableAt(p, root, a) == Some(f)
    else
      |a| == 4 && PRESENT in Flat(p, root, a).bits && Flat(p, root, a).frame == f &&
      !(PrivatePath(a) && USER in Flat(p, root, a).bits)
  }

  ghost predicate Shared(p: Phys, root: nat, f: nat) {
    exists a: Path :: Lent(p, root, a, f)
  }

  /** User pages of private slots are present, and in frames of the bitmap that are used. */
  ghost predicate UserMarked(p: Phys, root: nat, used: set<nat>) {
    forall o: Path | |o| == 4 && PrivatePath(o) && USER in Flat(p, root, o).bits ::
      PRESENT in Flat(p, root, o).bits && Flat(p, root, o).frame in used
  }

  /** The map of one process. */
  ghost predicate ProcessMap(p: Phys, root: nat, used: set<nat>) {
    SoundMap(p, root, used) && TopPlain(p, root) && UserMarked(p, root, used) && !Held(p, root, 0)
  }

  /** What map `r` holds for itself is neither held by map `s` nor shared by it. */
  ghost predicate Apart(p: Phys, r: nat, s: nat) {
    forall f: nat {:trigger Held(p, r, f)} | Held(p, r, f) :: !Shared(p, s, f) && (r != s ==> !Held(p, s, f))
  }

  // ---- Holding is owning ----

  lemma {:induction false} OwnIsHeld(p: Phys, root: nat, f: nat)
    ensures f in Own(p, root, 4) <==> Held(p, root, f)
  {
    hide Own;
    if a: Path :| Hangs(p, root, a, f) {
      if |a| <= 3 {
        TableOwned(p, root, a);
        OwnsItsTable(p, f, 4 - |a|);
      } else {
        UserPageOwned(p, root, a);
      }
    }
    if f in Own(p, root, 4) {
      assert TableAt(p, root, []) == Some(root);
      OwnHangs(p, root, [], root, f);
    }
  }

  lemma {:induction false} OwnsItsTable(p: Phys, t: nat, level: nat)
    ensures t in Own(p, t, level)
  {
  }

  lemma {:induction false} OwnHangs(p: Phys, root: nat, a: Path, t: nat, f: nat)
    requires |a| <= 3 && PrivatePath(a) && TableAt(p, root, a) == Some(t) && f in Own(p, t, 4 - |a|)
    ensures Held(p, root, f)
    decreases 4 - |a|
  {
    hide TableAt, Flat;
    if f == t {
      assert Hangs(p, root, a, f);
    } else {
      var i :| 0 <= i < Slots(4 - |a|) && f in Below(p, t, 4 - |a|, i);
      ChildHangs(p, root, a, t, i);
      if |a| == 3 {
        assert Own(p, p[t][i].frame, 0) == {p[t][i].frame as nat};
      } else {
        OwnHangs(p, root, a + [i], p[t][i].frame, f);
      }
    }
  }

  lemma {:induction false} ChildHangs(p: Phys, root: nat, a: Path, t: nat, i: nat)
    requires |a| <= 3 && PrivatePath(a) && TableAt(p, root, a) == Some(t) && IsChild(p, t, 4 - |a|, i)
    ensures PrivatePath(a + [i]) && Hangs(p, root, a + [i], p[t][i].frame)
    ensures |a| < 3 ==> TableAt(p, root, a + [i]) == Some(p[t][i].frame)
  {
    assert (a + [i])[..|a|] == a;
  }

  // ---- What a map holds and shares is used ----

  lemma {:induction false} HeldUsed(p: Phys, root: nat, used: set<nat>, f: nat)
    requires TablesUsed(p, root, used) && UserMarked(p, root, used) && Held(p, root, f)
    ensures f in used
  {
    var a: Path :| Hangs(p, root, a, f);
    assert PrivatePath(a) && ValidPath(a);
  }

  lemma {:induction false} SharedUsed(p: Phys, root: nat, used: set<nat>, f: nat)
    requires TreeMap(p, root, used) && Shared(p, root, f)
    ensures f in used || f >= BITMAP_SIZE
  {
    var a: Path :| Lent(p, root, a, f);
  }

  /** In a sound map, what is held is not shared at the same time. */
  lemma {:induction false} HeldNotShared(p: Phys, root: nat, used: set<nat>, f: nat)
    requires SoundMap(p, root, used) && UserMarked(p, root, used) && (forall u <- used :: u < BITMAP_SIZE)
    requires Held(p, root, f)
    ensures !Shared(p, root, f)
  {
    HeldUsed(p, root, used, f);
    var a: Path :| Hangs(p, root, a, f);
    forall b: Path
      ensures !Lent(p, root, b, f)
    {
      if |a| <= 3 && PrivatePath(a) {
        assert OnlyPath(p, root, a);
      }
    }
  }

  // ---- Two memories in which a map reads the same ----

  ghost predicate SameView(p: Phys, q: Phys, root: nat) {
    (forall a: Path | |a| <= 3 && ValidPath(a) :: TableAt(q, root, a) == TableAt(p, root, a)) &&
    (forall o: Path | |o| == 4 && ValidPath(o) :: Flat(q, root, o) == Flat(p, root, o))
  }

  /** The memories agree on every table of the map. */
  ghost predicate SameTables(p: Phys, q: Phys, root: nat) {
    |p| == |q| &&
    forall a: Path | |a| <= 3 && ValidPath(a) && TableAt(p, root, a).Some? && TableAt(p, root, a).value < |p| ::
      q[TableAt(p, root, a).value] == p[TableAt(p, root, a).value]
  }

  lemma {:induction false} SameTablesView(p: Phys, q: Phys, root: nat)
    requires SameTables(p, q, root)
    ensures SameView(p, q, root)
  {
    forall a: Path | |a| <= 3 && ValidPath(a)
      ensures TableAt(q, root, a) == TableAt(p, root, a)
    {
      SameWalk(p, q, root, a);
    }
    forall o: Path | |o| == 4 && ValidPath(o)
      ensures Flat(q, root, o) == Flat(p, root, o)
    {
      assert ValidPath(o[..3]);
    }
  }

  lemma {:induction false} SameWalk(p: Phys, q: Phys, root: nat, a: Path)
    requires SameTables(p, q, root) && |a| <= 3 && ValidPath(a)
    ensures TableAt(q, root, a) == TableAt(p, root, a)
    decreases |a|
  {
    if a != [] {
      var r := a[..|a| - 1];
      assert ValidPath(r);
      SameWalk(p, q, root, r);
    }
  }

  lemma {:induction false} SameHeld(p: Phys, q: Phys, root: nat, f: nat)
    requires SameView(p, q, root)
    ensures Held(q, root, f) == Held(p, root, f) && Shared(q, root, f) == Shared(p, root, f)
  {
    hide TableAt, Flat;
    if a: Path :| Hangs(p, root, a, f) {
      assert Hangs(q, root, a, f);
    }
    if a: Path :| Hangs(q, root, a, f) {
      assert Hangs(p, root, a, f);
    }
    if a: Path :| Lent(p, root, a, f) {
      assert Lent(q, root, a, f);
    }
    if a: Path :| Lent(q, root, a, f) {
      assert Lent(p, root, a, f);
    }
  }

  /** A map that reads the same stays a process's map as long as the frames it holds and shares stay used. */
  lemma {:induction false} SameProcess(p: Phys, q: Phys, root: nat, used: set<nat>, more: set<nat>)
    requires ProcessMap(p, root, used) && SameView(p, q, root) && TopPlain(q, root) && |q| == |p|
    requires forall f <- more :: f < |q|
    requires forall f <- used | Held(p, root, f) || Shared(p, root, f) :: f in more
    ensures ProcessMap(q, root, more)
  {
    hide TableAt, Flat, TopPlain;
    SameHeld(p, q, root, 0);
    forall a: Path | |a| <= 3 && ValidPath(a) && TableAt(q, root, a).Some?
      ensures TableAt(q, root, a).value in more
    {
      var f := TableAt(p, root, a).value;
      assert Hangs(p, root, a, f) || Lent(p, root, a, f);
    }
    forall o: Path | |o| == 4 && ValidPath(o) && PRESENT in Flat(q, root, o).bits
      ensures Flat(q, root, o).frame in more || Flat(q, root, o).frame >= BITMAP_SIZE
    {
      assert Hangs(p, root, o, Flat(p, root, o).frame) || Lent(p, root, o, Flat(p, root, o).frame);
    }
    forall o: Path | |o| == 4 && PrivatePath(o) && USER in Flat(q, root, o).bits
      ensures PRESENT in Flat(q, root, o).bits && Flat(q, root, o).frame in more
    {
      assert Hangs(p, root, o, Flat(p, root, o).frame);
    }
    forall a: Path | |a| <= 3 && ValidPath(a)
      ensures OnlyPath(q, root, a)
    {
      assert OnlyPath(p, root, a);
    }
  }
}
