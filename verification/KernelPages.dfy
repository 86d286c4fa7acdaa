/**
 Pages of the kernel's slots, which all maps have in common: creating or deleting one through any map does it in all of
 them.
 */
module KernelPages {
  import opened Options
  import opened PhysicalMemory
  import opened OwnedFrames
  import opened FlatMap
  import opened MemoryManagers
  import opened CloneTheorems
  import opened MapViews
  import opened CloneViews
  import opened ProcessMaps

  /** A process's map puts each frame to one use. */
  lemma {:induction false} ProcessUsesOnce(p: Phys, root: nat, used: set<nat>)
    requires ProcessMap(p, root, used) && forall f <- used :: f < BITMAP_SIZE
    ensures OneUse(p, root, used)
  {
    LendsOnce(p, root, used);
    forall a: Path, f: nat | Hangs(p, root, a, f)
      ensures f in used && f != 0 && (|a| == 4 ==> PRESENT in Flat(p, root, a).bits) && !Shared(p, root, f)
    {
      assert Held(p, root, f);
      HeldUsed(p, root, used, f);
      HeldNotShared(p, root, used, f);
    }
    forall a: Path, b: Path, f: nat | Hangs(p, root, a, f) && Hangs(p, root, b, f)
      ensures a == b
    {
      HangsAlone(p, root, used, a, b, f);
    }
    forall a: Path, b: Path, f: nat | Hangs(p, root, a, f)
      ensures !Lent(p, root, b, f)
    {
      assert !Shared(p, root, f);
    }
  }

  lemma {:induction false} HangsAlone(p: Phys, root: nat, used: set<nat>, a: Path, b: Path, f: nat)
    requires ProcessMap(p, root, used) && (forall f <- used :: f < BITMAP_SIZE)
    requires Hangs(p, root, a, f) && Hangs(p, root, b, f)
    ensures a == b
  {
    HangsKind(p, root, used, a, f);
    HangsKind(p, root, used, b, f);
    hide TableAt, Flat;
    if |a| <= 3 && |b| <= 3 {
      assert OnlyPath(p, root, a);
    }
  }

  lemma {:induction false} HangsKind(p: Phys, root: nat, used: set<nat>, a: Path, f: nat)
    requires ProcessMap(p, root, used) && (forall f <- used :: f < BITMAP_SIZE) && Hangs(p, root, a, f)
    ensures PrivatePath(a) && |a| <= 4
    ensures if |a| <= 3 then TableAt(p, root, a) == Some(f)
            else PRESENT in Flat(p, root, a).bits && Flat(p, root, a).frame == f < BITMAP_SIZE
  {
  }

  // ---- Two maps with the same tables behind the kernel's slots ----

  lemma {:induction false} SameHighWalk(p: Phys, r: nat, t: nat, a: Path)
    requires HighAlike(p, r, p, t) && KernelPath(a) && |a| <= 3
    ensures TableAt(p, r, a) == TableAt(p, t, a)
    decreases |a|
  {
    if |a| == 1 {
      assert a == [a[0]];
    } else {
      var front := a[..|a| - 1];
      assert ValidPath(front) && front[0] == a[0];
      SameHighWalk(p, r, t, front);
    }
  }

  lemma {:induction false} SameHighLent(p: Phys, r: nat, t: nat, a: Path, f: nat)
    requires HighAlike(p, r, p, t) && KernelPath(a)
    ensures Lent(p, r, a, f) <==> Lent(p, t, a, f)
  {
    if |a| <= 3 {
      SameHighWalk(p, r, t, a);
    } else if |a| == 4 {
      assert ValidPath(a[..3]) && a[..3][0] == a[0];
      SameHighWalk(p, r, t, a[..3]);
    }
  }

  // ---- Two memories that agree on what a map holds ----

  ghost predicate HeldKept(p: Phys, q: Phys, root: nat) {
    |q| == |p| && forall f: nat {:trigger Held(p, root, f)} | Held(p, root, f) && f < |p| :: q[f] == p[f]
  }

  lemma {:induction false} PrivateWalk(p: Phys, q: Phys, root: nat, a: Path)
    requires HeldKept(p, q, root) && PrivatePath(a) && |a| <= 3
    ensures TableAt(q, root, a) == TableAt(p, root, a)
    decreases |a|
  {
    if a != [] {
      var r := a[..|a| - 1];
      assert PrivatePath(r) by { assert r != [] ==> r[0] == a[0]; }
      PrivateWalk(p, q, root, r);
      if TableAt(p, root, r).Some? {
        assert Hangs(p, root, r, TableAt(p, root, r).value);
        assert Held(p, root, TableAt(p, root, r).value);
      }
    }
  }

  lemma {:induction false} PrivateFlat(p: Phys, q: Phys, root: nat, o: Path)
    requires HeldKept(p, q, root) && PrivatePath(o) && |o| == 4
    ensures Flat(q, root, o) == Flat(p, root, o)
  {
    var a := o[..3];
    assert PrivatePath(a) && a[0] == o[0];
    PrivateWalk(p, q, root, a);
    if TableAt(p, root, a).Some? {
      assert Hangs(p, root, a, TableAt(p, root, a).value);
      assert Held(p, root, TableAt(p, root, a).value);
    }
  }

  /** Through its own slots a map reads the same in both memories. */
  ghost predicate PrivateSame(p: Phys, q: Phys, root: nat) {
    (forall a: Path | |a| <= 3 && PrivatePath(a) :: TableAt(q, root, a) == TableAt(p, root, a)) &&
    (forall o: Path | |o| == 4 && PrivatePath(o) :: Flat(q, root, o) == Flat(p, root, o))
  }

  lemma {:induction false} KeptIsSame(p: Phys, q: Phys, root: nat)
    requires HeldKept(p, q, root)
    ensures PrivateSame(p, q, root)
  {
    hide HeldKept, TableAt, Flat, PrivatePath;
    forall a: Path | |a| <= 3 && PrivatePath(a)
      ensures TableAt(q, root, a) == TableAt(p, root, a)
    {
      PrivateWalk(p, q, root, a);
    }
    forall o: Path | |o| == 4 && PrivatePath(o)
      ensures |o| == 4 && o[3] < ENTRIES && Flat(q, root, o) == Flat(p, root, o)
    {
      PrivateFlat(p, q, root, o);
      LastIndex(o);
    }
  }

  lemma {:induction false} LastIndex(o: Path)
    requires |o| == 4 && PrivatePath(o)
    ensures o[3] < ENTRIES
  {
  }

  lemma {:induction false} PrivateUses(p: Phys, q: Phys, root: nat, a: Path, f: nat)
    requires PrivateSame(p, q, root)
    ensures Hangs(q, root, a, f) <==> Hangs(p, root, a, f)
    ensures PrivatePath(a) ==> (Lent(q, root, a, f) <==> Lent(p, root, a, f))
    ensures PrivatePath(a) && |a| == 4 ==> Flat(q, root, a) == Flat(p, root, a)
  {
  }

  // ---- Creation ----

  /** The frames of a process do not change when a kernel page is created, but for the root through which it is. */
  lemma {:induction false} KernelKeepsHeld(s: Maps, root: nat, page: Path, flags: set<nat>, t: Maps, o: nat)
    requires AllApart(s) && Happens(s, CreateKernel(root, page, flags), t) && o in s.roots && o != root
    ensures HeldKept(s.phys, t.phys, o)
  {
    hide ProcessMap, TreeMap, TopPlain, TablesKept, TablesFresh, Flat, TableAt, Held, Shared, PathTables;
    var p, q := s.phys, t.phys;
    assert ProcessMap(p, o, s.used) && ProcessMap(p, root, s.used) && Apart(p, o, root);
    RootIsHeld(p, root);
    forall f: nat | Held(p, o, f) && f < |p|
      ensures q[f] == p[f]
    {
      assert !Shared(p, root, f) && f != root;
      ProcessUses(p, o, s.used, f);
      OffKernelPath(p, s.used, root, page, q, f);
    }
  }

  lemma {:induction false} RootIsHeld(p: Phys, root: nat)
    ensures Held(p, root, root)
  {
    assert TableAt(p, root, []) == Some(root) && Hangs(p, root, [], root);
  }

  /** A used frame that the map does not share is none of the tables on the way to a kernel page. */
  lemma {:induction false} OffKernelPath(p: Phys, used: set<nat>, root: nat, page: Path, q: Phys, f: nat)
    requires TablesFresh(p, q, root, used) && |page| == 4 && KernelPath(page) && f in used && !Shared(p, root, f)
    ensures f !in PathTables(q, root, page)
  {
    hide TableAt, Flat;
    forall k | 1 <= k <= 3
      ensures TableAt(q, root, page[..k]) != Some(f)
    {
      KernelFront(page, k);
      assert !Lent(p, root, page[..k], f);
    }
  }

  lemma {:induction false} KernelFront(page: Path, k: nat)
    requires KernelPath(page) && 1 <= k <= |page|
    ensures KernelPath(page[..k])
  {
    assert page[..k][0] == page[0];
  }

  lemma {:induction false} KernelPrivate(s: Maps, root: nat, page: Path, flags: set<nat>, t: Maps, o: nat)
    requires AllApart(s) && Happens(s, CreateKernel(root, page, flags), t) && o in s.roots
    ensures PrivateSame(s.phys, t.phys, o)
  {
    if o != root {
      KernelKeepsHeld(s, root, page, flags, t, o);
      KeptIsSame(s.phys, t.phys, o);
    } else {
      assert TableAt(s.phys, root, []) == TableAt(t.phys, root, []) == Some(root);
      hide TableAt, Flat;
      forall a: Path | |a| <= 3 && PrivatePath(a)
        ensures TableAt(t.phys, root, a) == TableAt(s.phys, root, a)
      {
        assert a <= page ==> a == [];
      }
    }
  }

  lemma {:induction false} KernelHigh(s: Maps, root: nat, page: Path, flags: set<nat>, t: Maps, o: nat)
    requires AllApart(s) && Happens(s, CreateKernel(root, page, flags), t) && o in s.roots
    ensures HighAlike(t.phys, o, t.phys, root) && TopPlain(t.phys, o)
  {
    var p, q := s.phys, t.phys;
    assert ProcessMap(p, o, s.used) && ProcessMap(p, root, s.used) && HighAlike(p, o, p, root);
    if o != root {
      KernelKeepsHeld(s, root, page, flags, t, o);
      RootHeld(p, o, s.used);
      assert TableAt(p, o, []) == Some(o) && Hangs(p, o, [], o) && Held(p, o, o);
      assert q[o] == p[o];
      forall i: nat | PRIVATE_SLOTS <= i < 511
        ensures TableAt(q, o, [i]) == TableAt(q, root, [i])
      {
        assert [i][..0] == [] && TableAt(q, o, []) == Some(o) && TableAt(p, o, []) == Some(o);
        assert TableAt(q, o, [i]) == TableAt(p, o, [i]) == TableAt(p, root, [i]);
        assert ValidPath([i]) && ([i] <= page ==> i == page[0]);
      }
    }
  }

  /** What a map uses afterwards: its own frames as before, and the kernel's as the map through which it was done. */
  lemma {:induction false} KernelUses(s: Maps, root: nat, page: Path, flags: set<nat>, t: Maps, o: nat, a: Path, f: nat)
    requires AllApart(s) && Happens(s, CreateKernel(root, page, flags), t) && o in s.roots
    ensures Hangs(t.phys, o, a, f) <==> Hangs(s.phys, o, a, f)
    ensures PrivatePath(a) ==> (Lent(t.phys, o, a, f) <==> Lent(s.phys, o, a, f))
    ensures PrivatePath(a) && |a| == 4 ==> Flat(t.phys, o, a) == Flat(s.phys, o, a)
    ensures Lent(t.phys, o, a, f) ==> Lent(s.phys, o, a, f) || (f !in s.used && f < BITMAP_SIZE)
    ensures !PrivatePath(a) ==> (Lent(t.phys, o, a, f) <==> Lent(t.phys, root, a, f))
  {
    KernelPrivate(s, root, page, flags, t, o);
    PrivateUses(s.phys, t.phys, o, a, f);
    if KernelPath(a) {
      KernelHigh(s, root, page, flags, t, o);
      SameHighLent(t.phys, o, root, a, f);
      assert HighAlike(s.phys, o, s.phys, root);
      SameHighLent(s.phys, o, root, a, f);
      CreatedHolds(s.phys, s.used, root, page, flags, t.phys, t.used, a, f);
    }
  }

  lemma {:induction false} KernelOneUse(s: Maps, root: nat, page: Path, flags: set<nat>, t: Maps, o: nat)
    requires AllApart(s) && Happens(s, CreateKernel(root, page, flags), t) && o in s.roots
    ensures OneUse(t.phys, o, t.used)
  {
    var p, q := s.phys, t.phys;
    assert ProcessMap(p, o, s.used) && ProcessMap(p, root, s.used);
    CreatedProcess(p, s.used, root, page, flags, q, t.used);
    ProcessUsesOnce(p, o, s.used);
    ProcessUsesOnce(q, root, t.used);
    assert s.used <= t.used;
    hide Hangs, Lent, AllApart, Happens, ProcessMap, Created;
    forall a: Path, f: nat
      ensures Hangs(q, o, a, f) <==> Hangs(p, o, a, f)
      ensures PrivatePath(a) ==> (Lent(q, o, a, f) <==> Lent(p, o, a, f))
      ensures PrivatePath(a) && |a| == 4 ==> Flat(q, o, a) == Flat(p, o, a)
      ensures Lent(q, o, a, f) ==> Lent(p, o, a, f) || (f !in s.used && f < BITMAP_SIZE)
      ensures !PrivatePath(a) ==> (Lent(q, o, a, f) <==> Lent(q, root, a, f))
    {
      KernelUses(s, root, page, flags, t, o, a, f);
    }
    forall a: Path, f: nat | Hangs(q, o, a, f)
      ensures PrivatePath(a)
    {
      HangsPrivate(p, o, a, f);
    }
    LentOnceMixed(p, q, o, root, s.used, t.used);
  }

  lemma {:induction false} HangsPrivate(p: Phys, root: nat, a: Path, f: nat)
    requires Hangs(p, root, a, f)
    ensures PrivatePath(a)
  {
  }

  lemma {:induction false} LentOnceMixed(p: Phys, q: Phys, o: nat, root: nat, used: set<nat>, more: set<nat>)
    requires LentOnce(p, o, used) && LentOnce(q, root, more) && used <= more
    requires forall a: Path, f: nat :: PrivatePath(a) ==> (Lent(q, o, a, f) <==> Lent(p, o, a, f))
    requires forall a: Path, f: nat :: Lent(q, o, a, f) ==> Lent(p, o, a, f) || (f !in used && f < BITMAP_SIZE)
    requires forall a: Path, f: nat :: !PrivatePath(a) ==> (Lent(q, o, a, f) <==> Lent(q, root, a, f))
    ensures LentOnce(q, o, more)
  {
    hide Lent, PrivatePath;
    forall a: Path, b: Path, f: nat | Lent(q, o, a, f) && Lent(q, o, b, f)
      ensures a == b || (|a| == |b| == 4 && f >= BITMAP_SIZE) || KernelAlias(a, b)
    {
      if PrivatePath(a) {
        assert Lent(p, o, a, f);
      } else if PrivatePath(b) {
        assert Lent(p, o, b, f);
      } else {
        assert Lent(q, root, a, f) && Lent(q, root, b, f);
      }
    }
  }

  lemma {:induction false} KernelCreateKeeps(s: Maps, root: nat, page: Path, flags: set<nat>, t: Maps)
    requires AllApart(s) && Happens(s, CreateKernel(root, page, flags), t)
    ensures AllApart(t)
  {
    hide Hangs, Lent, Created, OneUse, ProcessMap, Happens, Apart, HighAlike;
    KernelShape(s, root, page, flags, t);
    forall o <- t.roots
      ensures ProcessMap(t.phys, o, t.used)
    {
      KernelProcess(s, root, page, flags, t, o);
    }
    forall a <- t.roots, b <- t.roots
      ensures Apart(t.phys, a, b) && HighAlike(t.phys, a, t.phys, b)
    {
      KernelApart(s, root, page, flags, t, a, b);
    }
  }

  lemma {:induction false} KernelShape(s: Maps, root: nat, page: Path, flags: set<nat>, t: Maps)
    requires AllApart(s) && Happens(s, CreateKernel(root, page, flags), t)
    ensures t.roots == s.roots && |t.phys| == FRAME_LIMIT && 0 in t.used && forall f <- t.used :: f < BITMAP_SIZE
  {
  }

  lemma {:induction false} KernelProcess(s: Maps, root: nat, page: Path, flags: set<nat>, t: Maps, o: nat)
    requires AllApart(s) && Happens(s, CreateKernel(root, page, flags), t) && o in s.roots
    ensures ProcessMap(t.phys, o, t.used)
  {
    KernelOneUse(s, root, page, flags, t, o);
    KernelHigh(s, root, page, flags, t, o);
    KernelShape(s, root, page, flags, t);
    hide AllApart, Happens, OneUse;
    SoundByUse(t.phys, o, t.used);
  }

  lemma {:induction false} KernelApart(s: Maps, root: nat, page: Path, flags: set<nat>, t: Maps, a: nat, b: nat)
    requires AllApart(s) && Happens(s, CreateKernel(root, page, flags), t) && a in s.roots && b in s.roots
    ensures Apart(t.phys, a, b) && HighAlike(t.phys, a, t.phys, b)
  {
    KernelHigh(s, root, page, flags, t, a);
    KernelHigh(s, root, page, flags, t, b);
    assert Apart(s.phys, a, b) && ProcessMap(s.phys, a, s.used);
    hide Hangs, Lent, AllApart, Happens, ProcessMap, TableAt;
    forall f: nat
      ensures Held(t.phys, a, f) ==> Held(s.phys, a, f) && f in s.used
      ensures Held(t.phys, b, f) ==> Held(s.phys, b, f)
      ensures Shared(t.phys, b, f) ==> Shared(s.phys, b, f) || f !in s.used
    {
      forall x: Path
        ensures Hangs(t.phys, a, x, f) <==> Hangs(s.phys, a, x, f)
        ensures Hangs(t.phys, b, x, f) <==> Hangs(s.phys, b, x, f)
        ensures Lent(t.phys, b, x, f) ==> Lent(s.phys, b, x, f) || f !in s.used
      {
        KernelUses(s, root, page, flags, t, a, x, f);
        KernelUses(s, root, page, flags, t, b, x, f);
      }
      ProcessUses(s.phys, a, s.used, f);
    }
  }

  // ---- Deletion ----

  /** For every map the walk ends at the same word, and so the same store is made. */
  lemma {:induction false} DeleteAlike(s: Maps, root: nat, page: Path, o: nat)
    requires AllApart(s) && root in s.roots && o in s.roots && |page| == 4 && KernelPath(page)
    requires root < |s.phys| && TableAt(s.phys, root, page[..3]).Some?
    ensures o < |s.phys| && TableAt(s.phys, o, page[..3]) == TableAt(s.phys, root, page[..3])
    ensures Deleted(s.phys, o, page) == Deleted(s.phys, root, page)
    ensures Released(s.phys, o, page) == Released(s.phys, root, page)
  {
    assert ProcessMap(s.phys, o, s.used) && HighAlike(s.phys, o, s.phys, root);
    KernelFront(page, 3);
    SameHighWalk(s.phys, o, root, page[..3]);
    DeleteTargetOfMapped(s.phys, o, page);
    DeleteTargetOfMapped(s.phys, root, page);
  }

  lemma {:induction false} DeleteView(s: Maps, root: nat, page: Path, t: Maps, o: nat)
    requires AllApart(s) && Happens(s, DeleteKernel(root, page), t) && o in s.roots
    ensures forall a: Path | |a| <= 3 && ValidPath(a) :: TableAt(t.phys, o, a) == TableAt(s.phys, o, a)
    ensures forall x: Path | |x| == 4 && ValidPath(x) ::
      Flat(t.phys, o, x) == if x == page then ZERO_WORD else Flat(s.phys, o, x)
    ensures Released(s.phys, root, page) == FrameOf(Flat(s.phys, o, page))
    ensures TopPlain(t.phys, o) && (SoundMap(t.phys, o, t.used) <==> Alone(s.phys, o, page))
  {
    DeleteAlike(s, root, page, o);
    assert ProcessMap(s.phys, o, s.used);
    DeleteSound(s.phys, o, s.used, page);
    PathSteps(page);
    LeafStore(s.phys, t.phys, o, s.used, page, ZERO_WORD);
  }

  lemma {:induction false} DeleteUses(s: Maps, root: nat, page: Path, t: Maps, o: nat, a: Path, f: nat)
    requires AllApart(s) && Happens(s, DeleteKernel(root, page), t) && o in s.roots
    ensures Hangs(t.phys, o, a, f) <==> Hangs(s.phys, o, a, f)
    ensures Lent(t.phys, o, a, f) ==> Lent(s.phys, o, a, f)
  {
    DeleteView(s, root, page, t, o);
    hide TableAt, Flat, AllApart, Happens, SoundMap, TopPlain;
  }

  lemma {:induction false} DeleteProcess(s: Maps, root: nat, page: Path, t: Maps, o: nat)
    requires AllApart(s) && Happens(s, DeleteKernel(root, page), t) && o in s.roots
    ensures ProcessMap(t.phys, o, t.used) <==> Alone(s.phys, o, page)
  {
    DeleteView(s, root, page, t, o);
    assert ProcessMap(s.phys, o, s.used) && forall f <- s.used :: f < BITMAP_SIZE;
    assert t.used == s.used - FrameOf(Flat(s.phys, o, page));
    hide TableAt, Flat, SoundMap, TopPlain, AllApart, Happens;
    forall a: Path
      ensures Hangs(t.phys, o, a, 0) <==> Hangs(s.phys, o, a, 0)
    {
      DeleteUses(s, root, page, t, o, a, 0);
    }
    if Alone(s.phys, o, page) {
      forall x: Path | |x| == 4 && PrivatePath(x) && USER in Flat(t.phys, o, x).bits
        ensures PRESENT in Flat(t.phys, o, x).bits && Flat(t.phys, o, x).frame in t.used
      {
        assert x != page && Flat(t.phys, o, x) == Flat(s.phys, o, x);
      }
    }
  }

  /** Deleting a kernel page keeps all maps sound and apart exactly when in none of them anything else is in its frame:
      the kernel maps some frames twice. */
  lemma {:induction false} KernelDeleteExactly(s: Maps, root: nat, page: Path, t: Maps)
    requires AllApart(s) && Happens(s, DeleteKernel(root, page), t)
    ensures |page| == 4 && ValidPath(page)
    ensures AllApart(t) <==> forall o <- s.roots :: Alone(s.phys, o, page)
  {
    hide ProcessMap, Alone, Apart, Happens, HighAlike;
    DeleteShape(s, root, page, t);
    forall o <- s.roots
      ensures ProcessMap(t.phys, o, t.used) <==> Alone(s.phys, o, page)
    {
      DeleteProcess(s, root, page, t, o);
    }
    forall a <- s.roots, b <- s.roots
      ensures Apart(t.phys, a, b) && HighAlike(t.phys, a, t.phys, b)
    {
      DeleteApart(s, root, page, t, a, b);
    }
  }

  lemma {:induction false} DeleteShape(s: Maps, root: nat, page: Path, t: Maps)
    requires AllApart(s) && Happens(s, DeleteKernel(root, page), t)
    ensures |page| == 4 && ValidPath(page)
    ensures t.roots == s.roots && |t.phys| == FRAME_LIMIT && 0 in t.used && forall f <- t.used :: f < BITMAP_SIZE
  {
    DeleteView(s, root, page, t, root);
    assert ProcessMap(s.phys, root, s.used);
  }

  lemma {:induction false} DeleteApart(s: Maps, root: nat, page: Path, t: Maps, a: nat, b: nat)
    requires AllApart(s) && Happens(s, DeleteKernel(root, page), t) && a in s.roots && b in s.roots
    ensures Apart(t.phys, a, b) && HighAlike(t.phys, a, t.phys, b)
  {
    DeleteView(s, root, page, t, a);
    DeleteView(s, root, page, t, b);
    assert Apart(s.phys, a, b) && HighAlike(s.phys, a, s.phys, b);
    hide Hangs, Lent, AllApart, Happens, TableAt, Flat, SoundMap, TopPlain;
    forall f: nat
      ensures Held(t.phys, a, f) ==> Held(s.phys, a, f)
      ensures Held(t.phys, b, f) ==> Held(s.phys, b, f)
      ensures Shared(t.phys, b, f) ==> Shared(s.phys, b, f)
    {
      forall x: Path
        ensures Hangs(t.phys, a, x, f) <==> Hangs(s.phys, a, x, f)
        ensures Hangs(t.phys, b, x, f) <==> Hangs(s.phys, b, x, f)
        ensures Lent(t.phys, b, x, f) ==> Lent(s.phys, b, x, f)
      {
        DeleteUses(s, root, page, t, a, x, f);
        DeleteUses(s, root, page, t, b, x, f);
      }
    }
  }
}
