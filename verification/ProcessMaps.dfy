/**
 The page maps of all processes over every run of page creation, unmapping, fork and exit: each stays a process's map,
 and what one holds no other reaches.
 */
module ProcessMaps {
  import opened Options
  import opened PhysicalMemory
  import opened OwnedFrames
  import opened FlatMap
  import opened CloneRelation
  import opened MemoryManagers
  import opened PageMapCloning
  import opened CloneTheorems
  import opened MapViews
  import opened CloneViews

  /** Physical memory, the used frames, and the roots of the processes' maps. */
  datatype Maps = Maps(phys: Phys, used: set<nat>, roots: set<nat>)

  datatype Event =
    | Create(root: nat, page: Path, flags: set<nat>)
    | Unmap(root: nat, page: Path)
    | Fork(root: nat, child: FrameNo)
    | Exit(root: nat)
    | CreateKernel(root: nat, page: Path, flags: set<nat>)
    | DeleteKernel(root: nat, page: Path)

  ghost predicate AllApart(s: Maps) {
    |s.phys| == FRAME_LIMIT && 0 in s.used && (forall f <- s.used :: f < BITMAP_SIZE) &&
    (forall r <- s.roots :: ProcessMap(s.phys, r, s.used)) &&
    (forall r <- s.roots, t <- s.roots :: Apart(s.phys, r, t) && HighAlike(s.phys, r, s.phys, t))
  }

  /** Behind the kernel's slots the maps have the same tables. */
  ghost predicate HighAlike(p: Phys, r: nat, q: Phys, t: nat) {
    forall i: nat | PRIVATE_SLOTS <= i < 511 :: TableAt(p, r, [i]) == TableAt(q, t, [i])
  }

  /** What page creation does for one map: its walk, its frames, and the memory it leaves alone. */
  ghost predicate Created(p: Phys, used: set<nat>, root: nat, page: Path, flags: set<nat>, q: Phys, more: set<nat>)
    requires |page| == 4 && ValidPath(page)
  {
    |q| == |p| && used <= more && (forall f <- more :: f < BITMAP_SIZE) && TreeMap(q, root, more) &&
    (TopPlain(p, root) ==> TopPlain(q, root)) && TablesFresh(p, q, root, used) && TablesKept(p, q, root, page) &&
    AgreeOn(p, q, used - {root} - PathTables(q, root, page)) &&
    (forall o: Path | |o| == 4 && ValidPath(o) && o != page :: Flat(q, root, o) == Flat(p, root, o)) &&
    (Flat(q, root, page) == Flat(p, root, page) || NewPage(used, root, page, flags, q, more))
  }

  /** The page has a frame that was free, and that is no table. */
  ghost predicate NewPage(used: set<nat>, root: nat, page: Path, flags: set<nat>, q: Phys, more: set<nat>)
    requires |page| == 4 && ValidPath(page)
  {
    Flat(q, root, page).bits == flags + {PRESENT, WRITABLE} &&
    Flat(q, root, page).frame in more && Flat(q, root, page).frame !in used &&
    forall a: Path | |a| <= 3 && ValidPath(a) :: TableAt(q, root, a) != Some(Flat(q, root, page).frame as nat)
  }

  /** One event takes the maps from `s` to `t`. */
  ghost predicate Happens(s: Maps, event: Event, t: Maps) {
    event.root in s.roots &&
    match event
    case Create(root, page, flags) =>
      |page| == 4 && PrivatePath(page) && t.roots == s.roots &&
      Created(s.phys, s.used, root, page, flags, t.phys, t.used)
    case Unmap(root, page) =>
      |page| == 4 && PrivatePath(page) && |s.phys| == FRAME_LIMIT && root < |s.phys| &&
      t == if UserPath(s.phys, root, page, 0) then Unmapped(s, root, page) else s
    case Fork(root, child) =>
      child !in s.used && CloneDone(s.phys, s.used + {child as nat}, root, t.phys, t.used, child) &&
      HighSlots(s.phys, root, t.phys, child) && (forall f <- t.used :: f < BITMAP_SIZE) &&
      t.roots == s.roots + {child as nat}
    case Exit(root) =>
      root as nat < |s.phys| && Link(4, s.phys[root][0]) && t == Exited(s, root)
    case CreateKernel(root, page, flags) =>
      |page| == 4 && KernelPath(page) && TableAt(s.phys, root, [page[0]]).Some? && t.roots == s.roots &&
      Created(s.phys, s.used, root, page, flags, t.phys, t.used)
    case DeleteKernel(root, page) =>
      |page| == 4 && KernelPath(page) && |s.phys| == FRAME_LIMIT && root < |s.phys| &&
      TableAt(s.phys, root, page[..3]).Some? && t == Unmapped(s, root, page)
  }

  /** A path through the slots all maps have in common. */
  ghost predicate KernelPath(a: Path) {
    ValidPath(a) && !PrivatePath(a)
  }

  ghost function Unmapped(s: Maps, root: nat, page: Path): Maps
    requires |s.phys| == FRAME_LIMIT && root < |s.phys| && |page| == 4 && ValidPath(page)
  {
    s.(phys := Deleted(s.phys, root, page), used := s.used - Released(s.phys, root, page))
  }

  /** What the teardown of a map gives back. */
  ghost function GivenBack(p: Phys, root: nat): set<nat>
    requires root < |p|
  {
    FreedBelow(p, p[root][0].frame, 3) + {p[root][0].frame as nat, root}
  }

  ghost function Exited(s: Maps, root: nat): Maps
    requires root < |s.phys|
  {
    s.(used := s.used - GivenBack(s.phys, root), roots := s.roots - {root})
  }

  // ---- Another process's map ----

  /** A step that changes no table in use but those one process holds leaves every other map as it is. */
  lemma {:induction false} OthersSame(s: Maps, r: nat, t: nat, q: Phys)
    requires AllApart(s) && r in s.roots && t in s.roots && r != t && |q| == |s.phys|
    requires forall f <- s.used | !Held(s.phys, r, f) :: q[f] == s.phys[f]
    ensures SameView(s.phys, q, t) && q[t] == s.phys[t] && TopPlain(q, t)
  {
    var p := s.phys;
    assert ProcessMap(p, t, s.used) && Apart(p, r, t);
    forall a: Path | |a| <= 3 && ValidPath(a) && TableAt(p, t, a).Some?
      ensures TableAt(p, t, a).value in s.used && q[TableAt(p, t, a).value] == p[TableAt(p, t, a).value]
    {
      var f := TableAt(p, t, a).value;
      assert Hangs(p, t, a, f) || Lent(p, t, a, f);
    }
    SameTablesView(p, q, t);
    assert TableAt(p, t, []) == Some(t);
  }

  // ---- Page creation ----

  /** What the map holds after a page was created it held before, or the frame was free; and so for what it shares. */
  lemma {:induction false} CreatedHolds(p: Phys, used: set<nat>, root: nat, page: Path, flags: set<nat>, q: Phys,
      more: set<nat>, a: Path, f: nat)
    requires |page| == 4 && ValidPath(page) && Created(p, used, root, page, flags, q, more)
    ensures Hangs(q, root, a, f) ==> Hangs(p, root, a, f) || f !in used
    ensures Lent(q, root, a, f) ==> Lent(p, root, a, f) || (f !in used && f < BITMAP_SIZE)
  {
    assert TablesUsed(q, root, more);
    hide TableAt, Flat, TreeMap, TopPlain, AgreeOn, PathTables;
    if |a| <= 3 && ValidPath(a) && TableAt(q, root, a).Some? {
      assert TableAt(q, root, a) == TableAt(p, root, a) || TableAt(q, root, a).value !in used;
    }
  }

  lemma {:induction false} CreatedProcess(p: Phys, used: set<nat>, root: nat, page: Path, flags: set<nat>, q: Phys,
      more: set<nat>)
    requires |page| == 4 && ValidPath(page) && Created(p, used, root, page, flags, q, more)
    requires ProcessMap(p, root, used) && 0 in used
    ensures ProcessMap(q, root, more)
  {
    assert SoundMap(q, root, more) by {
      SoundGrows(p, q, root, used, more, page);
    }
    assert UserMarked(q, root, more) by {
      hide TableAt, Flat;
      forall o: Path | |o| == 4 && PrivatePath(o) && USER in Flat(q, root, o).bits
        ensures PRESENT in Flat(q, root, o).bits && Flat(q, root, o).frame in more
      {
        assert o != page || Flat(q, root, page) == Flat(p, root, page) ==> Flat(q, root, o) == Flat(p, root, o);
      }
    }
    assert !Held(q, root, 0) by {
      forall a: Path
        ensures !Hangs(q, root, a, 0)
      {
        CreatedHolds(p, used, root, page, flags, q, more, a, 0);
      }
    }
  }

  /** Memory in use changes only in tables the map holds. */
  lemma {:induction false} CreatedElsewhere(p: Phys, used: set<nat>, root: nat, page: Path, flags: set<nat>, q: Phys,
      more: set<nat>, f: nat)
    requires |page| == 4 && PrivatePath(page) && Created(p, used, root, page, flags, q, more)
    requires f in used && f < |p| && !Held(p, root, f)
    ensures q[f] == p[f]
  {
    assert TableAt(p, root, []) == Some(root);
    hide TreeMap, TopPlain, Flat, TableAt;
    assert !Hangs(p, root, [], f);
    forall k | 1 <= k <= 3
      ensures TableAt(q, root, page[..k]) != Some(f)
    {
      assert PrivatePath(page[..k]);
      assert !Hangs(p, root, page[..k], f);
      assert TablesFresh(p, q, root, used);
    }
  }

  // ---- One process changes its map ----

  /** Memory `q` with the frames `more` in use differs from `s` only in what process `r` holds, has given up or has
      newly taken from the free frames. */
  ghost predicate Moves(s: Maps, r: nat, q: Phys, more: set<nat>) {
    |q| == |s.phys| && 0 in more && (forall f <- more :: f < BITMAP_SIZE) &&
    (forall f <- s.used | !Held(s.phys, r, f) :: f in more && (f < |q| ==> q[f] == s.phys[f])) &&
    (forall f: nat | Held(q, r, f) :: Held(s.phys, r, f) || f !in s.used) &&
    (forall f: nat | Shared(q, r, f) :: Shared(s.phys, r, f) || (f !in s.used && f < BITMAP_SIZE)) &&
    ProcessMap(q, r, more) && HighAlike(s.phys, r, q, r)
  }

  lemma {:induction false} MoveKeeps(s: Maps, r: nat, q: Phys, more: set<nat>)
    requires AllApart(s) && r in s.roots && Moves(s, r, q, more)
    ensures AllApart(Maps(q, more, s.roots))
  {
    hide ProcessMap, Held, Shared, TableAt;
    MoveUses(s, r, q, more);
    forall o <- s.roots | o != r
      ensures ProcessMap(q, o, more) && HighAlike(s.phys, o, q, o)
      ensures forall f: nat :: Held(q, o, f) == Held(s.phys, o, f) && Shared(q, o, f) == Shared(s.phys, o, f)
    {
      MoveOther(s, r, q, more, o);
    }
    forall a <- s.roots, b <- s.roots
      ensures Apart(q, a, b) && HighAlike(q, a, q, b)
    {
      assert Apart(s.phys, a, b) && Apart(s.phys, a, a) && HighAlike(s.phys, a, s.phys, b);
      if a == b == r {
        HeldApart(q, r, more);
      }
    }
  }

  lemma {:induction false} HeldApart(p: Phys, root: nat, used: set<nat>)
    requires ProcessMap(p, root, used) && forall f <- used :: f < BITMAP_SIZE
    ensures Apart(p, root, root)
  {
    forall f: nat | Held(p, root, f)
      ensures !Shared(p, root, f)
    {
      HeldNotShared(p, root, used, f);
    }
  }

  lemma {:induction false} ProcessUses(p: Phys, root: nat, used: set<nat>, f: nat)
    requires ProcessMap(p, root, used)
    ensures Held(p, root, f) ==> f in used
    ensures Shared(p, root, f) ==> f in used || f >= BITMAP_SIZE
  {
    if Held(p, root, f) {
      HeldUsed(p, root, used, f);
    }
    if Shared(p, root, f) {
      SharedUsed(p, root, used, f);
    }
  }

  /** In every map what is held is used, and what is shared is used or beyond the bitmap. */
  lemma {:induction false} MoveUses(s: Maps, r: nat, q: Phys, more: set<nat>)
    requires AllApart(s) && r in s.roots && Moves(s, r, q, more)
    ensures forall o <- s.roots, f: nat {:trigger Held(s.phys, o, f)} | Held(s.phys, o, f) :: f in s.used
    ensures forall o <- s.roots, f: nat {:trigger Shared(s.phys, o, f)} | Shared(s.phys, o, f) ::
      f in s.used || f >= BITMAP_SIZE
    ensures forall f: nat {:trigger Held(q, r, f)} | Held(q, r, f) :: f < BITMAP_SIZE
  {
    forall o <- s.roots, f: nat
      ensures Held(s.phys, o, f) ==> f in s.used
      ensures Shared(s.phys, o, f) ==> f in s.used || f >= BITMAP_SIZE
    {
      assert ProcessMap(s.phys, o, s.used);
      ProcessUses(s.phys, o, s.used, f);
    }
    forall f: nat
      ensures Held(q, r, f) ==> f < BITMAP_SIZE
    {
      ProcessUses(q, r, more, f);
    }
  }

  lemma {:induction false} MoveOther(s: Maps, r: nat, q: Phys, more: set<nat>, o: nat)
    requires AllApart(s) && r in s.roots && Moves(s, r, q, more) && o in s.roots && o != r
    ensures SameView(s.phys, q, o) && ProcessMap(q, o, more) && HighAlike(s.phys, o, q, o)
    ensures forall f: nat :: Held(q, o, f) == Held(s.phys, o, f) && Shared(q, o, f) == Shared(s.phys, o, f)
  {
    OthersSame(s, r, o, q);
    assert ProcessMap(s.phys, o, s.used) && Apart(s.phys, r, o);
    hide Held, Shared, ProcessMap;
    SameProcess(s.phys, q, o, s.used, more);
    forall f: nat
      ensures Held(q, o, f) == Held(s.phys, o, f) && Shared(q, o, f) == Shared(s.phys, o, f)
    {
      SameHeld(s.phys, q, o, f);
    }
  }

  lemma {:induction false} CreateKeeps(s: Maps, root: nat, page: Path, flags: set<nat>, t: Maps)
    requires AllApart(s) && Happens(s, Create(root, page, flags), t)
    ensures AllApart(t) && Moves(s, root, t.phys, t.used)
  {
    var p, q := s.phys, t.phys;
    assert ProcessMap(p, root, s.used);
    CreatedProcess(p, s.used, root, page, flags, q, t.used);
    forall f <- s.used | !Held(p, root, f)
      ensures q[f] == p[f]
    {
      CreatedElsewhere(p, s.used, root, page, flags, q, t.used, f);
    }
    hide Hangs, Lent, ProcessMap;
    forall f: nat
      ensures Held(q, root, f) ==> Held(p, root, f) || f !in s.used
      ensures Shared(q, root, f) ==> Shared(p, root, f) || (f !in s.used && f < BITMAP_SIZE)
    {
      forall a: Path
        ensures Hangs(q, root, a, f) ==> Hangs(p, root, a, f) || f !in s.used
        ensures Lent(q, root, a, f) ==> Lent(p, root, a, f) || (f !in s.used && f < BITMAP_SIZE)
      {
        CreatedHolds(p, s.used, root, page, flags, q, t.used, a, f);
      }
    }
    MoveKeeps(s, root, q, t.used);
  }

  // ---- Unmapping ----

  /** A page that passes the user check is unmapped, unless a large page hides it. */
  lemma {:induction false} UnmapCases(s: Maps, root: nat, page: Path)
    requires AllApart(s) && root in s.roots && |page| == 4 && PrivatePath(page) && root < |s.phys|
    requires UserPath(s.phys, root, page, 0)
    ensures DeleteTarget(s.phys, root, page).None? ==> Unmapped(s, root, page) == s
    ensures DeleteTarget(s.phys, root, page).Some? ==>
      TableAt(s.phys, root, page[..3]) == DeleteTarget(s.phys, root, page) &&
      USER in Flat(s.phys, root, page).bits && PRESENT in Flat(s.phys, root, page).bits &&
      Unmapped(s, root, page).used == s.used - {Flat(s.phys, root, page).frame as nat} &&
      SoundMap(Unmapped(s, root, page).phys, root, Unmapped(s, root, page).used) &&
      TopPlain(Unmapped(s, root, page).phys, root)
  {
    var p := s.phys;
    assert ProcessMap(p, root, s.used);
    UserTables(p, root, page);
    if DeleteTarget(p, root, page).Some? {
      DeleteSound(p, root, s.used, page);
      UserPathWords(p, root, page);
      hide TableAt, SoundMap, TopPlain, UserPath, DeleteTarget;
      assert USER in Flat(p, root, page).bits;
    }
  }

  lemma {:induction false} UnmapView(s: Maps, root: nat, page: Path)
    requires AllApart(s) && root in s.roots && |page| == 4 && PrivatePath(page) && root < |s.phys|
    requires TableAt(s.phys, root, page[..3]).Some?
    ensures var q := Deleted(s.phys, root, page);
      (forall a: Path | |a| <= 3 && ValidPath(a) :: TableAt(q, root, a) == TableAt(s.phys, root, a)) &&
      (forall o: Path | |o| == 4 && ValidPath(o) ::
         Flat(q, root, o) == if o == page then ZERO_WORD else Flat(s.phys, root, o))
    ensures forall f: nat | f < |s.phys| && !Held(s.phys, root, f) :: Deleted(s.phys, root, page)[f] == s.phys[f]
  {
    var p := s.phys;
    assert ProcessMap(p, root, s.used);
    DeleteTargetOfMapped(p, root, page);
    PathSteps(page);
    LeafStore(p, Deleted(p, root, page), root, s.used, page, ZERO_WORD);
    assert PrivatePath(page[..3]);
    assert Hangs(p, root, page[..3], TableAt(p, root, page[..3]).value);
  }

  lemma {:induction false} UnmapMoves(s: Maps, root: nat, page: Path)
    requires AllApart(s) && root in s.roots && |page| == 4 && PrivatePath(page) && root < |s.phys|
    requires UserPath(s.phys, root, page, 0) && DeleteTarget(s.phys, root, page).Some?
    ensures Moves(s, root, Unmapped(s, root, page).phys, Unmapped(s, root, page).used)
  {
    var p, t := s.phys, Unmapped(s, root, page);
    var q := t.phys;
    assert ProcessMap(p, root, s.used);
    UnmapCases(s, root, page);
    UnmapView(s, root, page);
    assert LeavesApart(p, root) && UserMarked(p, root, s.used) && !Held(p, root, 0);
    hide TableAt, Flat, DeleteTarget, Deleted, Unmapped, TopPlain, SoundMap, UserPath, ProcessMap, AllApart;
    assert Hangs(p, root, page, Flat(p, root, page).frame);
    assert UserMarked(q, root, t.used);
    forall f: nat
      ensures Held(q, root, f) ==> Held(p, root, f)
      ensures Shared(q, root, f) ==> Shared(p, root, f)
    {
      if a: Path :| Hangs(q, root, a, f) {
        assert Hangs(p, root, a, f);
      }
      if a: Path :| Lent(q, root, a, f) {
        assert Lent(p, root, a, f);
      }
    }
    hide Held, Shared;
  }

  lemma {:induction false} UnmapKeeps(s: Maps, root: nat, page: Path, t: Maps)
    requires AllApart(s) && Happens(s, Unmap(root, page), t)
    ensures AllApart(t) && (t == s || Moves(s, root, t.phys, t.used))
  {
    if UserPath(s.phys, root, page, 0) {
      UnmapCases(s, root, page);
      if DeleteTarget(s.phys, root, page).Some? {
        UnmapMoves(s, root, page);
        MoveKeeps(s, root, t.phys, t.used);
      }
    }
  }

  // ---- Fork ----

  lemma {:induction false} ForkOther(s: Maps, root: nat, child: FrameNo, t: Maps, o: nat)
    requires AllApart(s) && Happens(s, Fork(root, child), t) && o in s.roots
    ensures SameView(s.phys, t.phys, o) && ProcessMap(t.phys, o, t.used) && HighAlike(s.phys, o, t.phys, o)
    ensures forall f: nat :: Held(t.phys, o, f) == Held(s.phys, o, f) && Shared(t.phys, o, f) == Shared(s.phys, o, f)
    ensures forall f: nat | Held(s.phys, o, f) :: f in s.used
    ensures forall f: nat | Shared(s.phys, o, f) :: f in s.used || f >= BITMAP_SIZE
  {
    hide Held, Shared, CloneDone, HighSlots;
    ForkMemory(s, root, child, t);
    UnchangedView(s, o, t.phys);
    SameProcess(s.phys, t.phys, o, s.used, t.used);
    forall f: nat
      ensures Held(t.phys, o, f) == Held(s.phys, o, f) && Shared(t.phys, o, f) == Shared(s.phys, o, f)
      ensures Held(s.phys, o, f) ==> f in s.used
      ensures Shared(s.phys, o, f) ==> f in s.used || f >= BITMAP_SIZE
    {
      SameHeld(s.phys, t.phys, o, f);
      ProcessUses(s.phys, o, s.used, f);
    }
  }

  lemma {:induction false} ForkMemory(s: Maps, root: nat, child: FrameNo, t: Maps)
    requires AllApart(s) && Happens(s, Fork(root, child), t)
    ensures |t.phys| == |s.phys| && s.used <= t.used && forall f <- s.used :: t.phys[f] == s.phys[f]
  {
    CloneAgrees(s.phys, s.used + {child as nat}, root, t.phys, t.used, child);
  }

  lemma {:induction false} UnchangedView(s: Maps, o: nat, q: Phys)
    requires AllApart(s) && o in s.roots && |q| == |s.phys| && forall f <- s.used :: q[f] == s.phys[f]
    ensures SameView(s.phys, q, o) && TopPlain(q, o)
  {
    assert ProcessMap(s.phys, o, s.used) && TableAt(s.phys, o, []) == Some(o);
    SameTablesView(s.phys, q, o);
  }

  lemma {:induction false} ForkChild(s: Maps, root: nat, child: FrameNo, t: Maps)
    requires AllApart(s) && Happens(s, Fork(root, child), t)
    ensures ProcessMap(t.phys, child, t.used)
    ensures forall f: nat | Held(t.phys, child, f) :: f in t.used && f !in s.used
    ensures forall f: nat :: Shared(t.phys, child, f) <==> Shared(s.phys, root, f)
    ensures HighAlike(s.phys, root, t.phys, child)
  {
    ForkHigh(s, root, child, t);
    assert ProcessMap(s.phys, root, s.used);
    assert s.used + {child as nat} - {child as nat} == s.used;
    ForkMemory(s, root, child, t);
    CloneIsProcess(s.phys, s.used + {child as nat}, root, t.phys, t.used, child);
  }

  lemma {:induction false} ForkHigh(s: Maps, root: nat, child: FrameNo, t: Maps)
    requires AllApart(s) && Happens(s, Fork(root, child), t)
    ensures HighAlike(s.phys, root, t.phys, child)
  {
    assert ProcessMap(s.phys, root, s.used);
    assert s.used + {child as nat} - {child as nat} == s.used;
    CloneAgrees(s.phys, s.used + {child as nat}, root, t.phys, t.used, child);
    hide CloneDone, ProcessMap;
    forall i: nat | PRIVATE_SLOTS <= i < 511
      ensures TableAt(t.phys, child, [i]) == TableAt(s.phys, root, [i])
    {
      HighWalk(s.phys, s.used, root, t.phys, child, [i]);
    }
  }

  lemma {:induction false} ForkKeeps(s: Maps, root: nat, child: FrameNo, t: Maps)
    requires AllApart(s) && Happens(s, Fork(root, child), t)
    ensures AllApart(t)
  {
    hide Held, Shared, CloneDone, HighSlots, ProcessMap, TableAt;
    ForkMemory(s, root, child, t);
    ForkChild(s, root, child, t);
    forall o <- s.roots
      ensures ProcessMap(t.phys, o, t.used) && HighAlike(s.phys, o, t.phys, o)
      ensures forall f: nat :: Held(t.phys, o, f) == Held(s.phys, o, f) && Shared(t.phys, o, f) == Shared(s.phys, o, f)
      ensures forall f: nat | Held(s.phys, o, f) :: f in s.used
      ensures forall f: nat | Shared(s.phys, o, f) :: f in s.used || f >= BITMAP_SIZE
    {
      ForkOther(s, root, child, t, o);
    }
    HeldApart(t.phys, child, t.used);
    forall a <- t.roots, b <- t.roots
      ensures Apart(t.phys, a, b) && HighAlike(t.phys, a, t.phys, b)
    {
      assert HighAlike(s.phys, if a in s.roots then a else root, s.phys, if b in s.roots then b else root);
      if a in s.roots && b in s.roots {
        assert Apart(s.phys, a, b);
      } else if a in s.roots {
        assert Apart(s.phys, a, root);
      }
    }
  }

  // ---- Exit ----

  /** What the teardown gives back below a table, the map holds, or it is the frame of a present kernel page. */
  lemma {:induction false} FreedHangs(p: Phys, root: nat, a: Path, t: nat, f: nat)
    requires 1 <= |a| <= 3 && PrivatePath(a) && TableAt(p, root, a) == Some(t) && f in FreedBelow(p, t, 4 - |a|)
    ensures Held(p, root, f) || exists o: Path :: |o| == 4 && Lent(p, root, o, f)
    decreases 4 - |a|
  {
    var level := 4 - |a|;
    var i :| 0 <= i < ENTRIES && f in Freed(p, p[t][i], level);
    var w, c := p[t][i], a + [i];
    assert c[..|c| - 1] == a && PrivatePath(c) && w != ZERO_WORD;
    if level == 1 {
      assert c[..3] == a;
      assert Hangs(p, root, c, f) || Lent(p, root, c, f);
    } else if f == w.frame {
      assert Hangs(p, root, c, f);
    } else {
      FreedHangs(p, root, c, w.frame, f);
    }
  }

  lemma {:induction false} GivenBackHangs(p: Phys, root: nat, used: set<nat>, f: nat)
    requires ProcessMap(p, root, used) && root < |p| && Link(4, p[root][0]) && f in GivenBack(p, root)
    ensures f != 0 && (Held(p, root, f) || Shared(p, root, f))
  {
    assert TableAt(p, root, []) == Some(root) && Hangs(p, root, [], root);
    assert [0][..0] == [] && TableAt(p, root, [0]) == Some(p[root][0].frame) && Hangs(p, root, [0], p[root][0].frame);
    if f in FreedBelow(p, p[root][0].frame, 3) {
      FreedHangs(p, root, [0], p[root][0].frame, f);
    }
  }

  lemma {:induction false} NoZeroGivenBack(p: Phys, root: nat, used: set<nat>)
    requires ProcessMap(p, root, used) && root < |p| && Link(4, p[root][0])
    ensures root != 0 && p[root][0].frame != 0 && 0 !in FreedBelow(p, p[root][0].frame, 3)
  {
    if 0 in GivenBack(p, root) {
      GivenBackHangs(p, root, used, 0);
    }
  }

  /** Exit keeps the other maps exactly when no frame it gives back is one that another map shares: the teardown also
      releases the kernel pages it finds. */
  lemma {:induction false} ExitKeepsExactly(s: Maps, root: nat, t: Maps)
    requires AllApart(s) && Happens(s, Exit(root), t)
    ensures AllApart(t) <==>
            forall o <- t.roots, f <- GivenBack(s.phys, root) | f < BITMAP_SIZE :: !Shared(s.phys, o, f)
  {
    var p := s.phys;
    assert ProcessMap(p, root, s.used);
    hide Held, Shared, ProcessMap, GivenBack;
    forall f <- GivenBack(p, root)
      ensures f != 0 && (Held(p, root, f) || Shared(p, root, f))
    {
      GivenBackHangs(p, root, s.used, f);
    }
    forall o <- t.roots, f: nat
      ensures ProcessMap(p, o, t.used) && Shared(p, o, f) ==> f in t.used || f >= BITMAP_SIZE
    {
      if ProcessMap(p, o, t.used) {
        ProcessUses(p, o, t.used, f);
      }
    }
    if forall o <- t.roots, f <- GivenBack(p, root) | f < BITMAP_SIZE :: !Shared(p, o, f) {
      forall o <- t.roots
        ensures ProcessMap(p, o, t.used)
      {
        assert Apart(p, root, o) && Apart(p, o, root);
        UnchangedView(s, o, p);
        SameProcess(p, p, o, s.used, t.used);
      }
    }
  }

  // ---- The exit of a child ----

  /** A present kernel page below a table that is no user's is shared by the map. */
  lemma {:induction false} KernelLeavesShared(p: Phys, root: nat, a: Path, t: nat, f: nat)
    requires 1 <= |a| <= 3 && PrivatePath(a) && TableAt(p, root, a) == Some(t) && f in KernelLeaves(p, t, 4 - |a|)
    ensures Shared(p, root, f)
    decreases 4 - |a|
  {
    var level := 4 - |a|;
    var i :| 0 <= i < ENTRIES && f in KernelLeavesOf(p, p[t][i], level);
    var w, c := p[t][i], a + [i];
    assert c[..|c| - 1] == a && PrivatePath(c);
    if level == 1 {
      assert c[..3] == a;
      assert Lent(p, root, c, f);
    } else {
      KernelLeavesShared(p, root, c, w.frame, f);
    }
  }

  lemma {:induction false} KernelPageBelow(p: Phys, root: nat, page: Path, k: nat)
    requires |page| == 4 && PrivatePath(page) && PRESENT in Flat(p, root, page).bits && 1 <= k <= 3
    requires USER !in Flat(p, root, page).bits
    ensures TableAt(p, root, page[..k]).Some?
    ensures Flat(p, root, page).frame in KernelLeaves(p, TableAt(p, root, page[..k]).value, 4 - k)
    decreases 3 - k
  {
    if k == 3 {
      var t := TableAt(p, root, page[..3]).value;
      assert Flat(p, root, page).frame in KernelLeavesOf(p, p[t][page[3]], 1);
    } else {
      KernelPageBelow(p, root, page, k + 1);
      assert page[..k + 1][..k] == page[..k];
      var t := TableAt(p, root, page[..k]).value;
      assert Flat(p, root, page).frame in KernelLeavesOf(p, p[t][page[k]], 4 - k);
    }
  }

  /** After a fork, the exit of the child leaves the other maps sound and apart exactly when slot 0 of the parent leads
      to no present kernel page in a frame the bitmap manages. */
  lemma {:induction false} ForkThenExitExactly(s: Maps, root: nat, child: FrameNo, t: Maps, u: Maps)
    requires AllApart(s) && Happens(s, Fork(root, child), t) && Happens(t, Exit(child), u)
    requires root < |s.phys| && Link(4, s.phys[root][0])
    ensures AllApart(u) <==> forall f <- KernelLeaves(s.phys, s.phys[root][0].frame, 3) :: f >= BITMAP_SIZE
  {
    var p, q := s.phys, t.phys;
    hide Shared, Held, HighSlots, ProcessMap, Freed, KernelLeaves;
    ForkKeeps(s, root, child, t);
    ForkOther(s, root, child, t, root);
    ExitKeepsExactly(t, child, u);
    ForkGivesBack(s, root, child, t);
    forall f <- KernelLeaves(p, p[root][0].frame, 3)
      ensures Shared(q, root, f)
    {
      assert TableAt(p, root, []) == Some(root) && [0][..0] == [];
      KernelLeavesShared(p, root, [0], p[root][0].frame, f);
    }
    assert child as nat !in s.roots by {
      if child as nat in s.roots {
        assert ProcessMap(p, child, s.used);
        RootHeld(p, child, s.used);
      }
    }
    assert root in u.roots;
    forall o <- u.roots, f <- GivenBack(q, child)
      ensures Held(q, child, f) ==> !Shared(q, o, f)
    {
      assert Apart(q, child, o);
    }
  }

  lemma {:induction false} RootHeld(p: Phys, root: nat, used: set<nat>)
    requires ProcessMap(p, root, used)
    ensures root in used
  {
    assert TableAt(p, root, []) == Some(root);
  }

  /** The child's teardown gives back frames the child holds, and the kernel pages below the parent's slot 0. */
  lemma {:induction false} ForkGivesBack(s: Maps, root: nat, child: FrameNo, t: Maps)
    requires AllApart(s) && Happens(s, Fork(root, child), t) && root < |s.phys| && Link(4, s.phys[root][0])
    ensures child as nat < |t.phys|
    ensures KernelLeaves(s.phys, s.phys[root][0].frame, 3) <= GivenBack(t.phys, child)
    ensures forall f <- GivenBack(t.phys, child) ::
              Held(t.phys, child, f) || f in KernelLeaves(s.phys, s.phys[root][0].frame, 3)
  {
    var p, q := s.phys, t.phys;
    assert ClonedWord(p, p[root][0], q, q[child][0], 4);
    assert IsChild(q, child, 4, 0);
    FreedOfClone(p, p[root][0].frame, q, q[child][0].frame, 3);
    BelowOwn(q, child, 4, 0);
    OwnsItsTable(q, child, 4);
    hide Own, KernelLeaves, FreedBelow, Held;
    forall f <- GivenBack(q, child) | f !in KernelLeaves(p, p[root][0].frame, 3)
      ensures Held(q, child, f)
    {
      assert f in Own(q, child, 4);
      OwnIsHeld(q, child, f);
    }
  }

  /** The failing case: a kernel page in the lowest slot, a fork, and the end of the child. */
  lemma {:induction false} ForkThenExitHurts(s: Maps, root: nat, page: Path, child: FrameNo, t: Maps, u: Maps)
    requires AllApart(s) && Happens(s, Fork(root, child), t) && Happens(t, Exit(child), u)
    requires |page| == 4 && PrivatePath(page) && page[0] == 0 && Flat(s.phys, root, page).frame < BITMAP_SIZE
    requires PRESENT in Flat(s.phys, root, page).bits && USER !in Flat(s.phys, root, page).bits
    ensures !AllApart(u)
  {
    assert ProcessMap(s.phys, root, s.used) && TableAt(s.phys, root, []) == Some(root);
    RootHeld(s.phys, root, s.used);
    KernelPageBelow(s.phys, root, page, 1);
    assert page[..1] == [0] && [0][..0] == [];
    ForkThenExitExactly(s, root, child, t, u);
  }

  /** The runs can begin: an empty map is a process's map. */
  lemma {:induction false} EmptyMap(p: Phys, used: set<nat>, root: nat)
    requires |p| == FRAME_LIMIT && 0 in used && (forall f <- used :: f < BITMAP_SIZE)
    requires root in used && root != 0 && p[root] == ZERO_PAGE
    ensures AllApart(Maps(p, used, {root}))
  {
    forall a: Path | 1 <= |a| <= 3 && ValidPath(a)
      ensures TableAt(p, root, a).None?
    {
      assert TableAt(p, root, []) == Some(root) && a[..0] == [];
      NothingBehindZero(p, root, [], a[0], a);
    }
    forall o: Path | |o| == 4 && ValidPath(o)
      ensures Flat(p, root, o) == ZERO_WORD
    {
      assert ValidPath(o[..3]);
    }
    assert OneUse(p, root, used);
    SoundByUse(p, root, used);
    HeldApart(p, root, used);
  }
}
