/**
 Page maps of one last-level table, and what goes wrong on two of them.
 */
module SmallMaps {
  import opened Options
  import opened PhysicalMemory
  import opened OwnedFrames
  import opened FlatMap
  import opened CloneRelation
  import opened MemoryManagers
  import opened MapViews
  import opened CloneTheorems
  import opened CloneViews
  import opened ProcessMaps
  import opened MapRuns
  import opened Munmapping

  const ROOT: nat := 0x2000

  /** One table per level, each in the first slot of the one above; the last one holds `row`. */
  function TableRow(row: Page, t: nat): Page {
    match t
    case 0x2000 => Row(map[0 := Word(0x2001, CLONE_BITS)])
    case 0x2001 => Row(map[0 := Word(0x2002, CLONE_BITS)])
    case 0x2002 => Row(map[0 := Word(0x2003, CLONE_BITS)])
    case 0x2003 => row
    case _ => ZERO_PAGE
  }

  ghost function SmallMemory(row: Page): (p: Phys)
    ensures |p| == FRAME_LIMIT && forall t: nat | t < FRAME_LIMIT :: p[t] == TableRow(row, t)
  {
    seq(FRAME_LIMIT, t requires 0 <= t < FRAME_LIMIT => TableRow(row, t))
  }

  ghost predicate Zeros(a: Path) {
    forall k | 0 <= k < |a| :: a[k] == 0
  }

  lemma {:induction false} SmallTables(row: Page, a: Path)
    requires |a| <= 3 && ValidPath(a)
    ensures TableAt(SmallMemory(row), ROOT, a) == if Zeros(a) then Some(ROOT + |a|) else None
    decreases |a|
  {
    if a != [] {
      var r, i := a[..|a| - 1], a[|a| - 1];
      assert a == r + [i] && ValidPath(r);
      SmallTables(row, r);
      assert Zeros(a) <==> Zeros(r) && i == 0;
      assert Zeros(r) ==> SmallMemory(row)[ROOT + |r|] == TableRow(row, ROOT + |r|);
    }
  }

  lemma {:induction false} SmallFlat(row: Page, o: Path)
    requires |o| == 4 && ValidPath(o)
    ensures Flat(SmallMemory(row), ROOT, o) == if Zeros(o[..3]) then row[o[3]] else ZERO_WORD
  {
    assert ValidPath(o[..3]);
    SmallTables(row, o[..3]);
  }

  /** Every page of the last-level table is in a used frame of its own, outside the tables; user pages are present. */
  ghost predicate Tidy(row: Page, used: set<nat>) {
    (forall f <- used :: f < BITMAP_SIZE) && {0, 0x2000, 0x2001, 0x2002, 0x2003} <= used &&
    (forall i | 0 <= i < ENTRIES && row[i] != ZERO_WORD :: PRESENT in row[i].bits && row[i].frame in used &&
       row[i].frame > 0x2003) &&
    (forall i, j | 0 <= i < j < ENTRIES && row[i] != ZERO_WORD && row[j] != ZERO_WORD :: row[i].frame != row[j].frame)
  }

  lemma {:induction false} SmallUses(row: Page, used: set<nat>, a: Path, f: nat)
    requires Tidy(row, used) && (Hangs(SmallMemory(row), ROOT, a, f) || Lent(SmallMemory(row), ROOT, a, f))
    ensures PrivatePath(a) && |a| <= 4 && f in used && f != 0
    ensures |a| <= 3 ==> Zeros(a) && f == ROOT + |a| && Hangs(SmallMemory(row), ROOT, a, f)
    ensures |a| == 4 ==> Zeros(a[..3]) && row[a[3]] != ZERO_WORD && f == row[a[3]].frame > 0x2003
    ensures |a| == 4 ==> Flat(SmallMemory(row), ROOT, a) == row[a[3]]
  {
    if |a| <= 3 {
      SmallTables(row, a);
    } else {
      SmallFlat(row, a);
      assert a[..3][0] == a[0];
    }
  }

  /** Paths of the map that end at the same frame are the same. */
  lemma {:induction false} SmallOnce(row: Page, used: set<nat>, a: Path, b: Path, f: nat)
    requires Tidy(row, used)
    requires Hangs(SmallMemory(row), ROOT, a, f) || Lent(SmallMemory(row), ROOT, a, f)
    requires Hangs(SmallMemory(row), ROOT, b, f) || Lent(SmallMemory(row), ROOT, b, f)
    ensures a == b
  {
    SmallUses(row, used, a, f);
    SmallUses(row, used, b, f);
    hide SmallMemory, Hangs, Lent, Flat;
    assert |a| == |b|;
    if |a| == 4 {
      assert a == a[..3] + [a[3]] && b == b[..3] + [b[3]] && a[..3] == b[..3];
    }
  }

  lemma {:induction false} SmallIsProcess(row: Page, used: set<nat>)
    requires Tidy(row, used)
    ensures AllApart(Maps(SmallMemory(row), used, {ROOT}))
  {
    var p := SmallMemory(row);
    SmallOneUse(row, used);
    SoundByUse(p, ROOT, used);
    assert TopPlain(p, ROOT) by {
      assert p[ROOT] == TableRow(row, ROOT);
    }
    HeldApart(p, ROOT, used);
  }

  lemma {:induction false} SmallOneUse(row: Page, used: set<nat>)
    requires Tidy(row, used)
    ensures OneUse(SmallMemory(row), ROOT, used)
  {
    hide SmallMemory, Hangs, Lent, Flat, Tidy, TableAt;
    var p := SmallMemory(row);
    forall a: Path, f: nat | Hangs(p, ROOT, a, f) || Lent(p, ROOT, a, f)
      ensures f in used && f != 0 && PrivatePath(a) && (|a| == 4 ==> PRESENT in Flat(p, ROOT, a).bits)
    {
      SmallUses(row, used, a, f);
      SmallPresent(row, used, a);
    }
    forall a: Path, b: Path, f: nat | (Hangs(p, ROOT, a, f) || Lent(p, ROOT, a, f)) &&
      (Hangs(p, ROOT, b, f) || Lent(p, ROOT, b, f))
      ensures a == b
    {
      SmallOnce(row, used, a, b, f);
    }
    forall a: Path, f: nat
      ensures !(Hangs(p, ROOT, a, f) && Lent(p, ROOT, a, f))
    {
      NotBoth(p, a, f);
    }
  }

  lemma {:induction false} NotBoth(p: Phys, a: Path, f: nat)
    ensures !(Hangs(p, ROOT, a, f) && Lent(p, ROOT, a, f))
  {
  }

  lemma {:induction false} SmallPresent(row: Page, used: set<nat>, a: Path)
    requires Tidy(row, used)
    ensures |a| == 4 && a[3] < ENTRIES && row[a[3]] != ZERO_WORD ==> PRESENT in row[a[3]].bits
  {
  }

  // ---- munmap takes the wrong page ----

  /** Two user pages, the first two of the address space. */
  function TwoPages(): Page {
    Row(map[0 := Word(0x2004, CLONE_BITS), 1 := Word(0x2005, CLONE_BITS)])
  }

  lemma {:induction false} TwoPagesShow(o: Path)
    requires o == [0, 0, 0, 0] || o == [0, 0, 0, 1]
    ensures ValidPath(o) && Unmappable(SmallMemory(TwoPages()), ROOT, o)
    ensures Flat(SmallMemory(TwoPages()), ROOT, o) == Word(if o[3] == 0 then 0x2004 else 0x2005, CLONE_BITS)
  {
    var p := SmallMemory(TwoPages());
    SmallFlat(TwoPages(), o);
    UnmappableWords(p, ROOT, o);
    forall k | 0 <= k <= 3
      ensures TableAt(p, ROOT, o[..k]) == Some(ROOT + k)
      ensures p[ROOT + k] == TableRow(TwoPages(), ROOT + k)
    {
      SmallTables(TwoPages(), o[..k]);
    }
  }

  lemma {:induction false} TwoPagesTidy(used: set<nat>)
    requires (forall f <- used :: f < BITMAP_SIZE) && {0, 0x2000, 0x2001, 0x2002, 0x2003, 0x2004, 0x2005} <= used
    ensures AllApart(Maps(SmallMemory(TwoPages()), used, {ROOT}))
  {
    SmallIsProcess(TwoPages(), used);
  }

  /** Of the first two pages, the second is what munmap goes through for one page at address 0. */
  lemma {:induction false} MunmapFirst(q: Phys)
    requires Lost(SmallMemory(TwoPages()), q, ROOT, 0, 1, MunmapPages(4096) + 1)
    ensures Flat(q, ROOT, [0, 0, 0, 0]) == Word(0x2004, CLONE_BITS) && Flat(q, ROOT, [0, 0, 0, 1]) == ZERO_WORD
  {
    hide Flat, Unmappable, SmallMemory, TwoPages;
    TwoPagesShow([0, 0, 0, 0]);
    TwoPagesShow([0, 0, 0, 1]);
    assert MunmapPages(4096) == 1;
    assert PageAfter(0, 1) == [0, 0, 0, 1];
    assert Within(0, 1, 2, [0, 0, 0, 1]) && !Within(0, 1, 2, [0, 0, 0, 0]);
  }

  /** A process that asks to unmap its first page keeps it, and loses the second. */
  method MunmapMisses(m: MemoryManager)
    requires m.Valid() && m.phys == SmallMemory(TwoPages())
    requires {0x2000, 0x2001, 0x2002, 0x2003, 0x2004, 0x2005} <= m.Used()
    modifies m, m.memoryMap
    ensures m.Valid()
    ensures Flat(m.phys, ROOT, [0, 0, 0, 0]) == Word(0x2004, CLONE_BITS)
    ensures Flat(m.phys, ROOT, [0, 0, 0, 1]) == ZERO_WORD
  {
    assert 0 in m.Used() && forall f <- m.Used() :: f < BITMAP_SIZE;
    hide *;
    TwoPagesTidy(m.Used());
    Munmap(m, {ROOT}, ROOT, 0, 4096);
    MunmapFirst(m.phys);
  }

  // ---- The exit of a child takes a page from its parent ----

  /** One kernel page, the first of the address space. */
  function KernelPage(): Page {
    Row(map[0 := Word(0x2004, {PRESENT, WRITABLE})])
  }

  lemma {:induction false} KernelPageTidy(used: set<nat>)
    requires (forall f <- used :: f < BITMAP_SIZE) && {0, 0x2000, 0x2001, 0x2002, 0x2003, 0x2004} <= used
    ensures var p := SmallMemory(KernelPage());
      AllApart(Maps(p, used, {ROOT})) && Need(p, ROOT, 4, 0) == 3 && ROOT < |p| && Link(4, p[ROOT][0]) &&
      Flat(p, ROOT, [0, 0, 0, 0]) == Word(0x2004, {PRESENT, WRITABLE})
  {
    hide AllApart, Flat, SmallMemory, Need, KernelPage;
    KernelPageRow(used);
    SmallIsProcess(KernelPage(), used);
    SmallFlat(KernelPage(), [0, 0, 0, 0]);
    SmallNeed(KernelPage());
  }

  lemma {:induction false} KernelPageRow(used: set<nat>)
    requires (forall f <- used :: f < BITMAP_SIZE) && {0, 0x2000, 0x2001, 0x2002, 0x2003, 0x2004} <= used
    ensures Tidy(KernelPage(), used) && KernelPage()[0] == Word(0x2004, {PRESENT, WRITABLE})
    ensures forall i | 0 <= i < ENTRIES :: USER !in KernelPage()[i].bits
  {
  }

  /** Without user pages a clone takes one frame for each table below the root. */
  lemma {:induction false} SmallNeed(row: Page)
    requires forall i | 0 <= i < ENTRIES :: USER !in row[i].bits
    ensures Need(SmallMemory(row), ROOT, 4, 0) == 3
    ensures ROOT < |SmallMemory(row)| && Link(4, SmallMemory(row)[ROOT][0])
  {
    hide SmallMemory, Need;
    var p := SmallMemory(row);
    NeedNoUser(p, 0x2003, 0);
    NeedOne(p, 0x2002, 2);
    NeedOne(p, 0x2001, 3);
    NeedOne(p, ROOT, 4);
  }

  /** A table with one link, in its first slot. */
  lemma {:induction false} NeedOne(p: Phys, t: nat, level: nat)
    requires 2 <= level <= 4 && t < |p| && IsTable(p[t][0]) && forall i | 1 <= i < ENTRIES :: p[t][i] == ZERO_WORD
    ensures Need(p, t, level, 0) == 1 + Need(p, p[t][0].frame, level - 1, 0)
  {
    NeedNothing(p, t, level, 1);
  }

  lemma {:induction false} NeedNoUser(p: Phys, t: nat, k: nat)
    requires t < |p| && forall i | k <= i < ENTRIES :: USER !in p[t][i].bits
    ensures Need(p, t, 1, k) == 0
    decreases ENTRIES - k
  {
    if k < ENTRIES {
      NeedNoUser(p, t, k + 1);
    }
  }

  /** A process with that map forks, and the child is reaped: the parent's map is not sound any more. */
  method ChildTakesPage(m: MemoryManager)
    requires m.Valid() && m.phys == SmallMemory(KernelPage()) && {0x2000, 0x2001, 0x2002, 0x2003, 0x2004} <= m.Used()
    requires m.FreeFrames() > 3
    modifies m, m.memoryMap
    ensures m.Valid() && !AllApart(Maps(m.phys, m.Used(), {ROOT}))
  {
    assert 0 in m.Used() && forall f <- m.Used() :: f < BITMAP_SIZE;
    hide *;
    KernelPageTidy(m.Used());
    KernelPageLeaf();
    ForkThenExit(m, {ROOT}, ROOT);
  }

  lemma {:induction false} KernelPageLeaf()
    ensures var p := SmallMemory(KernelPage());
      ROOT < |p| && 0x2004 in KernelLeaves(p, p[ROOT][0].frame, 3)
  {
    hide SmallMemory;
    var p := SmallMemory(KernelPage());
    SmallFlat(KernelPage(), [0, 0, 0, 0]);
    KernelPageBelow(p, ROOT, [0, 0, 0, 0], 1);
    SmallTables(KernelPage(), [0]);
    assert [0, 0, 0, 0][..1] == [0];
  }
}
