/**
 Runs: what holds of the maps of all processes over every run, what no other process notices, and the code that makes
 the steps.
 */
module MapRuns {
  import opened Options
  import opened PhysicalMemory
  import opened OwnedFrames
  import opened FlatMap
  import opened CloneRelation
  import opened MemoryManagers
  import opened PageMapCloning
  import opened CloneTheorems
  import opened MapViews
  import opened CloneViews
  import opened ProcessMaps
  import opened KernelPages

  // ---- Runs ----

  /** No frame an exit gives back is shared by another map, and nothing else is in that of a kernel page deleted. */
  ghost predicate Harmless(s: Maps, event: Event) {
    match event
    case Exit(root) =>
      root < |s.phys| &&
      forall o <- s.roots - {root}, f <- GivenBack(s.phys, root) | f < BITMAP_SIZE :: !Shared(s.phys, o, f)
    case DeleteKernel(_, page) => |page| == 4 && ValidPath(page) && forall o <- s.roots :: Alone(s.phys, o, page)
    case _ => true
  }

  lemma {:induction false} StepKeepsExactly(s: Maps, event: Event, t: Maps)
    requires AllApart(s) && Happens(s, event, t)
    ensures AllApart(t) <==> Harmless(s, event)
  {
    hide AllApart, Created, CloneDone, HighSlots, UserPath;
    match event {
      case Create(root, page, flags) => CreateKeeps(s, root, page, flags, t);
      case Unmap(root, page) => UnmapKeeps(s, root, page, t);
      case Fork(root, child) => ForkKeeps(s, root, child, t);
      case Exit(root) => ExitKeepsExactly(s, root, t);
      case CreateKernel(root, page, flags) => KernelCreateKeeps(s, root, page, flags, t);
      case DeleteKernel(root, page) => KernelDeleteExactly(s, root, page, t);
    }
  }

  /** Over every run the maps of all processes stay sound and apart, exactly as long as every exit is harmless. */
  lemma {:induction false} RunKeepsExactly(states: seq<Maps>, events: seq<Event>)
    requires |states| == |events| + 1 && AllApart(states[0])
    requires forall k | 0 <= k < |events| :: Happens(states[k], events[k], states[k + 1])
    ensures (forall k | 0 <= k < |states| :: AllApart(states[k])) <==>
            forall k | 0 <= k < |events| :: Harmless(states[k], events[k])
  {
    hide AllApart, Happens, Harmless;
    if forall k | 0 <= k < |events| :: Harmless(states[k], events[k]) {
      for n := 0 to |events|
        invariant forall k | 0 <= k <= n :: AllApart(states[k])
      {
        StepKeepsExactly(states[n], events[n], states[n + 1]);
      }
    }
    if forall k | 0 <= k < |states| :: AllApart(states[k]) {
      forall k | 0 <= k < |events|
        ensures Harmless(states[k], events[k])
      {
        assert AllApart(states[k + 1]);
        StepKeepsExactly(states[k], events[k], states[k + 1]);
      }
    }
  }

  // ---- Other processes ----

  /** What one process does leaves every other process's translations as they are, and the bytes of its pages. */
  lemma {:induction false} OthersUndisturbed(s: Maps, event: Event, t: Maps, o: nat)
    requires AllApart(s) && Happens(s, event, t) && o in s.roots && (o != event.root || event.Fork?)
    requires !event.CreateKernel? && !event.DeleteKernel?
    ensures SameView(s.phys, t.phys, o)
    ensures |t.phys| == |s.phys| &&
            forall f <- s.used | Held(s.phys, o, f) || Shared(s.phys, o, f) :: t.phys[f] == s.phys[f]
  {
    hide Held, Shared, Created, CloneDone, HighSlots, UserPath, ProcessMap;
    match event {
      case Create(root, page, flags) =>
        CreateKeeps(s, root, page, flags, t);
        MoveUndisturbed(s, root, t.phys, t.used, o);
      case Unmap(root, page) =>
        UnmapKeeps(s, root, page, t);
        if t != s {
          MoveUndisturbed(s, root, t.phys, t.used, o);
        }
      case Fork(root, child) =>
        ForkMemory(s, root, child, t);
        UnchangedView(s, o, t.phys);
      case Exit(root) =>
    }
  }

  /** What the kernel does to its own pages changes nothing that any process sees through its own slots. */
  lemma {:induction false} KernelUnseen(s: Maps, event: Event, t: Maps, o: nat)
    requires AllApart(s) && Happens(s, event, t) && o in s.roots && (event.CreateKernel? || event.DeleteKernel?)
    ensures PrivateSame(s.phys, t.phys, o)
  {
    hide Created, TableAt, Flat, ProcessMap;
    match event {
      case CreateKernel(root, page, flags) => KernelPrivate(s, root, page, flags, t, o);
      case DeleteKernel(root, page) => DeleteView(s, root, page, t, o);
      case _ =>
    }
  }

  lemma {:induction false} MoveUndisturbed(s: Maps, r: nat, q: Phys, more: set<nat>, o: nat)
    requires AllApart(s) && r in s.roots && Moves(s, r, q, more) && o in s.roots && o != r
    ensures SameView(s.phys, q, o)
    ensures forall f <- s.used | Held(s.phys, o, f) || Shared(s.phys, o, f) :: q[f] == s.phys[f]
  {
    hide Held, Shared, ProcessMap;
    OthersSame(s, r, o, q);
    assert Apart(s.phys, o, r) && Apart(s.phys, r, o);
  }

  /** A store into any frame a process holds changes nothing that another process can reach: no translation, and no
      byte of a present page. */
  lemma {:induction false} StoresStayPrivate(s: Maps, r: nat, o: nat, f: nat, data: Page)
    requires AllApart(s) && r in s.roots && o in s.roots && r != o && Held(s.phys, r, f)
    ensures f < |s.phys| && SameView(s.phys, s.phys[f := data], o)
    ensures forall page: Path | |page| == 4 && ValidPath(page) && PRESENT in Flat(s.phys, o, page).bits ::
              Flat(s.phys, o, page).frame != f
  {
    var p := s.phys;
    assert ProcessMap(p, r, s.used) && ProcessMap(p, o, s.used) && Apart(p, r, o);
    ProcessUses(p, r, s.used, f);
    OthersSame(s, r, o, p[f := data]);
    forall page: Path | |page| == 4 && ValidPath(page) && PRESENT in Flat(p, o, page).bits
      ensures Flat(p, o, page).frame != f
    {
      assert Hangs(p, o, page, Flat(p, o, page).frame) || Lent(p, o, page, Flat(p, o, page).frame);
    }
  }

  // ---- The code ----

  /** A page for a process, at an address below the kernel's slots. */
  method CreateFor(m: MemoryManager, ghost roots: set<nat>, root: nat, page: Path, flags: set<nat>)
    requires m.Valid() && AllApart(Maps(m.phys, m.Used(), roots)) && root in roots
    requires |page| == 4 && PrivatePath(page) && LARGE !in flags && m.FreeFrames() >= Missing(m.phys, root, page, 0)
    modifies m, m.memoryMap
    ensures m.Valid() && AllApart(Maps(m.phys, m.Used(), roots))
    ensures Happens(old(Maps(m.phys, m.Used(), roots)), Create(root, page, flags), Maps(m.phys, m.Used(), roots))
  {
    hide AllApart, Happens, TreeMap, TopPlain, SoundMap, TableAt, Flat, Missing, Blocked, TablesFresh,
      PathTables, AgreeOn;
    ghost var s := Maps(m.phys, m.Used(), roots);
    CreateReady(s, root, page);
    var frame := m.CreateOrGetPage(root, page, flags, true);
    ghost var t := Maps(m.phys, m.Used(), roots);
    assert forall f <- m.Used() :: f < BITMAP_SIZE;
    assert Created(s.phys, s.used, root, page, flags, t.phys, t.used);
    CreateHappens(s, root, page, flags, t);
    CreateKeeps(s, root, page, flags, t);
  }

  /** A page of the kernel's, through any map, where the top-level slot leads to a table already. */
  method CreateKernelFor(m: MemoryManager, ghost roots: set<nat>, root: nat, page: Path, flags: set<nat>)
    requires m.Valid() && AllApart(Maps(m.phys, m.Used(), roots)) && root in roots
    requires |page| == 4 && KernelPath(page) && TableAt(m.phys, root, [page[0]]).Some?
    requires LARGE !in flags && m.FreeFrames() >= Missing(m.phys, root, page, 0)
    modifies m, m.memoryMap
    ensures m.Valid() && AllApart(Maps(m.phys, m.Used(), roots))
    ensures Happens(old(Maps(m.phys, m.Used(), roots)), CreateKernel(root, page, flags), Maps(m.phys, m.Used(), roots))
  {
    hide AllApart, Happens, TreeMap, TopPlain, SoundMap, TableAt, Flat, Missing, Blocked, TablesFresh, TablesKept,
      PathTables, AgreeOn;
    ghost var s := Maps(m.phys, m.Used(), roots);
    CreateReady(s, root, page);
    var frame := m.CreateOrGetPage(root, page, flags, true);
    ghost var t := Maps(m.phys, m.Used(), roots);
    assert forall f <- m.Used() :: f < BITMAP_SIZE;
    assert Created(s.phys, s.used, root, page, flags, t.phys, t.used);
    KernelHappens(s, root, page, flags, t);
    KernelCreateKeeps(s, root, page, flags, t);
  }

  lemma {:induction false} KernelHappens(s: Maps, root: nat, page: Path, flags: set<nat>, t: Maps)
    requires root in s.roots && t.roots == s.roots && |page| == 4 && KernelPath(page)
    requires TableAt(s.phys, root, [page[0]]).Some? && Created(s.phys, s.used, root, page, flags, t.phys, t.used)
    ensures Happens(s, CreateKernel(root, page, flags), t)
  {
  }

  /** The end of a kernel page that has its tables, as process_thread_exit takes down a stack. */
  method DeleteKernelFor(m: MemoryManager, ghost roots: set<nat>, root: nat, page: Path)
    requires m.Valid() && AllApart(Maps(m.phys, m.Used(), roots)) && root in roots
    requires |page| == 4 && KernelPath(page) && TableAt(m.phys, root, page[..3]).Some?
    modifies m, m.memoryMap
    ensures m.Valid()
    ensures Happens(old(Maps(m.phys, m.Used(), roots)), DeleteKernel(root, page), Maps(m.phys, m.Used(), roots))
    ensures AllApart(Maps(m.phys, m.Used(), roots)) <==>
            old(Harmless(Maps(m.phys, m.Used(), roots), DeleteKernel(root, page)))
  {
    ghost var s := Maps(m.phys, m.Used(), roots);
    DeleteReady(s, root, page);
    hide AllApart, SoundMap, TableAt, Flat, Alone, DeleteTarget, Deleted, TopPlain;
    m.DeletePage(root, page);
    KernelDeleteExactly(s, root, page, Maps(m.phys, m.Used(), roots));
  }

  lemma {:induction false} DeleteReady(s: Maps, root: nat, page: Path)
    requires AllApart(s) && root in s.roots && |page| == 4 && ValidPath(page) && TableAt(s.phys, root, page[..3]).Some?
    ensures root < |s.phys| && 0 !in Released(s.phys, root, page)
  {
    assert ProcessMap(s.phys, root, s.used);
    DeleteTargetOfMapped(s.phys, root, page);
  }

  lemma {:induction false} CreateReady(s: Maps, root: nat, page: Path)
    requires AllApart(s) && root in s.roots && |page| == 4 && ValidPath(page)
    ensures TreeMap(s.phys, root, s.used) && root < |s.phys| && LARGE !in s.phys[root][page[0]].bits
    ensures SoundMap(s.phys, root, s.used) && TopPlain(s.phys, root)
  {
    assert ProcessMap(s.phys, root, s.used);
    SoundParts(s.phys, root, s.used, page);
  }

  lemma {:induction false} CreateHappens(s: Maps, root: nat, page: Path, flags: set<nat>, t: Maps)
    requires root in s.roots && t.roots == s.roots && |page| == 4 && PrivatePath(page)
    requires Created(s.phys, s.used, root, page, flags, t.phys, t.used)
    ensures Happens(s, Create(root, page, flags), t)
  {
  }

  /** munmap's loop body: a page that is not the user's is left alone. */
  method UnmapFor(m: MemoryManager, ghost roots: set<nat>, root: nat, page: Path)
    requires m.Valid() && AllApart(Maps(m.phys, m.Used(), roots)) && root in roots && |page| == 4 && PrivatePath(page)
    modifies m, m.memoryMap
    ensures m.Valid() && AllApart(Maps(m.phys, m.Used(), roots))
    ensures Happens(old(Maps(m.phys, m.Used(), roots)), Unmap(root, page), Maps(m.phys, m.Used(), roots))
  {
    ghost var s := Maps(m.phys, m.Used(), roots);
    assert ProcessMap(s.phys, root, s.used);
    var mapped := m.CheckUser(root, page);
    if mapped {
      CheckedTarget(s.phys, root, s.used, page);
      m.DeletePage(root, page);
    }
    UnmapKeeps(s, root, page, Maps(m.phys, m.Used(), roots));
  }

  /** process_fork: a root for the child, and the clone. */
  method ForkFor(m: MemoryManager, ghost roots: set<nat>, root: nat) returns (child: FrameNo)
    requires m.Valid() && AllApart(Maps(m.phys, m.Used(), roots)) && root in roots
    requires m.FreeFrames() > Need(m.phys, root, 4, 0)
    modifies m, m.memoryMap
    ensures m.Valid() && AllApart(Maps(m.phys, m.Used(), roots + {child as nat}))
    ensures Happens(old(Maps(m.phys, m.Used(), roots)), Fork(root, child),
                    Maps(m.phys, m.Used(), roots + {child as nat}))
  {
    hide AllApart, Happens, CloneDone, HighSlots, Own, Need;
    ghost var s := Maps(m.phys, m.Used(), roots);
    OwnUsed(s, root);
    child := m.KallocFrame();
    assert Own(m.phys, root, 4) <= m.Used() - {child as nat};
    assert m.Used() == s.used + {child as nat};
    CloneMap(m, root, child);
    ghost var t := Maps(m.phys, m.Used(), roots + {child as nat});
    assert forall f <- t.used :: f < BITMAP_SIZE;
    ForkHappens(s, root, child, t);
    ForkKeeps(s, root, child, t);
  }

  lemma {:induction false} OwnUsed(s: Maps, root: nat)
    requires AllApart(s) && root in s.roots
    ensures Own(s.phys, root, 4) <= s.used
  {
    assert ProcessMap(s.phys, root, s.used);
    forall f | f in Own(s.phys, root, 4)
      ensures f in s.used
    {
      OwnIsHeld(s.phys, root, f);
      ProcessUses(s.phys, root, s.used, f);
    }
  }

  lemma {:induction false} ForkHappens(s: Maps, root: nat, child: FrameNo, t: Maps)
    requires root in s.roots && t.roots == s.roots + {child as nat} && child !in s.used
    requires CloneDone(s.phys, s.used + {child as nat}, root, t.phys, t.used, child)
    requires HighSlots(s.phys, root, t.phys, child) && forall f <- t.used :: f < BITMAP_SIZE
    ensures Happens(s, Fork(root, child), t)
  {
  }

  /** process_reap: the map is cleared. */
  method ExitFor(m: MemoryManager, ghost roots: set<nat>, root: FrameNo)
    requires m.Valid() && AllApart(Maps(m.phys, m.Used(), roots)) && root as nat in roots && Link(4, m.phys[root][0])
    modifies m, m.memoryMap
    ensures m.Valid()
    ensures Happens(old(Maps(m.phys, m.Used(), roots)), Exit(root), Maps(m.phys, m.Used(), roots - {root as nat}))
    ensures AllApart(Maps(m.phys, m.Used(), roots - {root as nat})) <==>
            old(Harmless(Maps(m.phys, m.Used(), roots), Exit(root)))
  {
    ghost var s := Maps(m.phys, m.Used(), roots);
    assert ProcessMap(s.phys, root, s.used);
    NoZeroGivenBack(s.phys, root, s.used);
    ClearMap(m, root);
    ExitKeepsExactly(s, root, Maps(m.phys, m.Used(), roots - {root as nat}));
  }

  /** A process forks and the child is reaped. */
  method ForkThenExit(m: MemoryManager, ghost roots: set<nat>, root: nat)
    requires m.Valid() && AllApart(Maps(m.phys, m.Used(), roots)) && root in roots
    requires m.FreeFrames() > Need(m.phys, root, 4, 0) && root < |m.phys| && Link(4, m.phys[root][0])
    modifies m, m.memoryMap
    ensures m.Valid()
    ensures AllApart(Maps(m.phys, m.Used(), roots)) <==>
            forall f <- KernelLeaves(old(m.phys), old(m.phys)[root][0].frame, 3) :: f >= BITMAP_SIZE
  {
    hide *;
    ghost var s := Maps(m.phys, m.Used(), roots);
    var child := ForkFor(m, roots, root);
    ghost var t := Maps(m.phys, m.Used(), roots + {child as nat});
    ChildReady(s, root, child, t);
    ExitFor(m, t.roots, child);
    assert t.roots - {child as nat} == roots;
    ForkThenExitExactly(s, root, child, t, Maps(m.phys, m.Used(), roots));
  }

  lemma {:induction false} ChildReady(s: Maps, root: nat, child: FrameNo, t: Maps)
    requires AllApart(s) && Happens(s, Fork(root, child), t) && root < |s.phys| && Link(4, s.phys[root][0])
    ensures child as nat < |t.phys| && Link(4, t.phys[child][0]) && child as nat !in s.roots
  {
    assert ClonedWord(s.phys, s.phys[root][0], t.phys, t.phys[child][0], 4);
    if child as nat in s.roots {
      assert ProcessMap(s.phys, child, s.used);
      RootHeld(s.phys, child, s.used);
    }
  }
}
