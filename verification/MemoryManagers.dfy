/**
 The physical frame bitmap and the operations on page tables, each proved against the flat map
 (create, map, delete) or the owned-frame sets (clone, clear).
 */
module MemoryManagers {
  import opened PhysicalMemory
  import opened FlatMap
  import opened Translations
  import opened Options

  lemma {:induction false} RangeSize(s: set<nat>, n: nat)
    requires forall f: nat :: f in s <==> f < n
    ensures |s| == n
  {
    if n > 0 {
      RangeSize(s - {n - 1}, n - 1);
    }
  }

  /** The path meets a large page before the last level, where create refuses to go on. */
  predicate Blocked(p: Phys, root: nat, page: Path)
    requires |page| == 4
  {
    BlockedAt(p, root, page, 1) || BlockedAt(p, root, page, 2)
  }

  predicate BlockedAt(p: Phys, root: nat, page: Path, k: nat)
    requires |page| == 4 && k <= 2
  {
    var t := TableAt(p, root, page[..k]);
    t.Some? && t.value < |p| && page[k] < ENTRIES && LARGE in p[t.value][page[k]].bits
  }

  /** The tables below the root on the way to a page. */
  ghost function PathTables(p: Phys, root: nat, page: Path): set<nat>
    requires |page| == 4
  {
    TableSet(p, root, page[..1]) + TableSet(p, root, page[..2]) + TableSet(p, root, page[..3])
  }

  ghost function TableSet(p: Phys, root: nat, a: Path): set<nat> {
    match TableAt(p, root, a)
    case None => {}
    case Some(t) => {t}
  }

  lemma TableSteps(p: Phys, root: nat, page: Path)
    requires root < |p| && |page| == 4 && ValidPath(page)
    ensures TableAt(p, root, page[..1]) == if IsTable(p[root][page[0]]) then Some(p[root][page[0]].frame) else None
    ensures forall k, t: nat | 1 <= k <= 2 && t < |p| && TableAt(p, root, page[..k]) == Some(t) ::
              TableAt(p, root, page[..k + 1]) == if IsTable(p[t][page[k]]) then Some(p[t][page[k]].frame) else None
    ensures forall k | 1 <= k <= 2 && TableAt(p, root, page[..k + 1]).Some? ::
              TableAt(p, root, page[..k]).Some? && TableAt(p, root, page[..k]).value < |p|
  {
    PathSteps(page);
    assert TableAt(p, root, page[..1][..0]) == Some(root);
  }

  lemma PathSteps(page: Path)
    requires |page| == 4 && ValidPath(page)
    ensures page[..1] == [] + [page[0]] && page[..2] == page[..1] + [page[1]] && page[..3] == page[..2] + [page[2]]
    ensures page[..1][..0] == [] && page[..2][..1] == page[..1] && page[..3][..2] == page[..2]
    ensures ValidPath(page[..1]) && ValidPath(page[..2]) && ValidPath(page[..3])
  {
  }

  /** How many frames the creation of a page still takes from table `t` at depth k on. */
  function Missing(p: Phys, t: nat, page: Path, k: nat): nat
    requires |page| == 4 && k <= 3
    decreases 3 - k
  {
    if t >= |p| || page[k] >= ENTRIES then 0
    else if p[t][page[k]] == ZERO_WORD then 4 - k
    else if k == 3 || LARGE in p[t][page[k]].bits then 0
    else Missing(p, p[t][page[k]].frame, page, k + 1)
  }

  /** No slot of the root but the last holds a large page. */
  predicate TopPlain(p: Phys, root: nat) {
    root < |p| && forall i | 0 <= i < 511 :: LARGE !in p[root][i].bits
  }

  /** The root is no other table. */
  lemma {:induction false} RootApart(p: Phys, root: nat, used: set<nat>, a: Path)
    requires TreeMap(p, root, used) && |a| <= 3 && ValidPath(a) && TableAt(p, root, a).Some?
    ensures root in used && (a != [] ==> TableAt(p, root, a).value != root)
  {
    assert TableAt(p, root, []) == Some(root) && ValidPath([]);
    assert OnlyPath(p, root, []);
  }

  lemma {:induction false} StoreKeepsTop(p: Phys, q: Phys, root: nat, used: set<nat>, a: Path, i: nat, w: Word)
    requires TreeMap(p, root, used) && |a| <= 3 && ValidPath(a) && TableAt(p, root, a).Some?
    requires StoredAt(p, q, used, TableAt(p, root, a).value, i, w) && (a == [] ==> LARGE !in w.bits)
    ensures TopPlain(p, root) ==> TopPlain(q, root)
  {
    RootApart(p, root, used, a);
    hide TreeMap;
  }

  lemma {:induction false} FreshSame(p: Phys, root: nat, used: set<nat>)
    ensures TablesFresh(p, p, root, used)
  {
  }

  /** A step that leaves the tables where they are adds nothing. */
  lemma {:induction false} SameTablesFresh(p: Phys, q: Phys, r: Phys, root: nat, used: set<nat>)
    requires TablesFresh(p, q, root, used)
    requires forall a: Path | |a| <= 3 && ValidPath(a) :: TableAt(r, root, a) == TableAt(q, root, a)
    ensures TablesFresh(p, r, root, used)
  {
    hide TableAt, ValidPath;
  }

  lemma {:induction false} SameTablesKept(p: Phys, q: Phys, r: Phys, root: nat, page: Path)
    requires TablesKept(p, q, root, page)
    requires forall a: Path | |a| <= 3 && ValidPath(a) :: TableAt(r, root, a) == TableAt(q, root, a)
    ensures TablesKept(p, r, root, page)
  {
    hide TableAt, ValidPath;
  }

  lemma {:induction false} AgreeOffPath(p0: Phys, p1: Phys, q: Phys, u0: set<nat>, u1: set<nat>, root: nat, page: Path,
      t: nat)
    requires |page| == 4 && TableAt(p1, root, page[..3]) == Some(t) && u0 <= u1
    requires AgreeOn(p0, p1, u0 - {root} - PathTables(p1, root, page)) && AgreeOn(p1, q, u1 - {t})
    requires PathTables(q, root, page) == PathTables(p1, root, page)
    ensures AgreeOn(p0, q, u0 - {root} - PathTables(q, root, page))
  {
  }

  class MemoryManager {
    const memoryMap: array<bool>
    var idx: int
    var phys: Phys

    ghost function Used(): set<nat>
      reads memoryMap
    {
      set f | 0 <= f < memoryMap.Length && memoryMap[f]
    }

    /** Frame 0 is reserved, and the cursor never skips a free frame: every frame below it is used. */
    ghost predicate Valid()
      reads this, memoryMap
    {
      memoryMap.Length == BITMAP_SIZE && |phys| == FRAME_LIMIT && memoryMap[0] &&
      0 <= idx < BITMAP_SIZE && forall f | 0 <= f < idx :: memoryMap[f]
    }

    ghost function FreeFrames(): int
      reads memoryMap
    {
      BITMAP_SIZE - |Used()|
    }

    /** Boot: an empty bitmap in which the frames the firmware reserves get marked, then the first 0x1001, the kernel's
        low memory. */
    constructor (memory: Phys, reserved: seq<nat>)
      requires |memory| == FRAME_LIMIT
      ensures Valid() && fresh(memoryMap) && phys == memory
      ensures forall f :: f in Used() <==> 0 <= f <= 0x1000 || (f < BITMAP_SIZE && f in reserved)
    {
      memoryMap := new bool[BITMAP_SIZE](_ => false);
      idx := 0;
      phys := memory;
      new;
      for i := 0 to |reserved|
        invariant forall f | 0 <= f < BITMAP_SIZE :: memoryMap[f] <==> f in reserved[..i]
        invariant phys == memory && idx == 0 && fresh(memoryMap)
      {
        MarkPage(reserved[i]);
      }
      for i := 0 to 0x1001
        invariant forall f | 0 <= f < BITMAP_SIZE :: memoryMap[f] <==> f < i || f in reserved
        invariant phys == memory && idx == 0 && fresh(memoryMap)
      {
        MarkPage(i);
      }
    }

    method MarkPage(frame: int)
      requires memoryMap.Length == BITMAP_SIZE && 0 <= frame
      modifies memoryMap
      ensures Used() == old(Used()) + if frame < BITMAP_SIZE then {frame} else {}
      ensures forall f | 0 <= f < BITMAP_SIZE :: memoryMap[f] == (f == frame || old(memoryMap[f]))
    {
      if frame >= BITMAP_SIZE {
        return;
      }
      memoryMap[frame] := true;
    }

    method FreePage(frame: int)
      requires memoryMap.Length == BITMAP_SIZE && 0 <= frame
      modifies memoryMap
      ensures Used() == old(Used()) - {frame}
      ensures forall f | 0 <= f < BITMAP_SIZE :: memoryMap[f] == (f != frame && old(memoryMap[f]))
    {
      if frame >= BITMAP_SIZE {
        return;
      }
      memoryMap[frame] := false;
    }

    lemma SomeFree()
      requires Valid() && FreeFrames() > 0
      ensures exists f :: idx <= f < BITMAP_SIZE && !memoryMap[f]
    {
      if forall f | 0 <= f < BITMAP_SIZE :: memoryMap[f] {
        RangeSize(Used(), BITMAP_SIZE);
      }
    }

    /** Hands out the lowest free frame; its byte address still fits a 32-bit int. */
    method KallocFrame() returns (frame: nat)
      requires Valid() && FreeFrames() > 0
      modifies this`idx, memoryMap
      ensures Valid()
      ensures frame !in old(Used()) && frame < BITMAP_SIZE && 0 < frame * 4096 < 0x8000_0000
      ensures forall f: nat | f < frame :: f in old(Used())
      ensures Used() == old(Used()) + {frame} && FreeFrames() == old(FreeFrames()) - 1
    {
      hide Used;
      UsedMeans();
      SomeFree();
      ghost var free :| idx <= free < BITMAP_SIZE && !memoryMap[free];
      while memoryMap[idx]
        invariant 0 <= idx <= free
        invariant forall f | 0 <= f < idx :: memoryMap[f]
        modifies this`idx
        decreases free - idx
      {
        idx := idx + 1;
      }
      MarkPage(idx);
      frame := idx;
      UsedMeans();
    }

    lemma {:induction false} UsedMeans()
      ensures forall f :: f in Used() <==> 0 <= f < memoryMap.Length && memoryMap[f]
    {
    }

    /** Returns a frame, moving the cursor so that no free frame is left behind it.  Frame 0, which is reserved, is the
        one whose return breaks the bitmap: a cursor that stands there moves below it. */
    method KfreeFrame(frame: nat)
      requires memoryMap.Length == BITMAP_SIZE
      modifies this`idx, memoryMap
      ensures Used() == old(Used()) - {frame}
      ensures old(Valid()) ==> (Valid() <==> frame != 0) && (idx == -1 <==> frame == 0 && old(idx) == 0)
    {
      FreePage(frame);
      if idx == frame {
        idx := idx - 1;
      } else if frame < idx {
        idx := frame;
      }
    }

    /** One level of the walk: enter the table behind slot `i` of `t`, hanging an empty one there if asked to. */
    method TableBelow(ghost root: nat, ghost a: Path, t: nat, i: nat, flags: set<nat>, create: bool)
      returns (child: Option<nat>)
      requires Valid() && TreeMap(phys, root, Used())
      requires |a| <= 2 && ValidPath(a + [i]) && TableAt(phys, root, a) == Some(t)
      requires LARGE !in flags && (create && phys[t][i] == ZERO_WORD ==> FreeFrames() > 0)
      modifies this, memoryMap
      ensures Valid() && TreeMap(phys, root, Used())
      ensures var w := old(phys)[t][i];
        if w != ZERO_WORD || !create then
          phys == old(phys) && Used() == old(Used()) && child == if w == ZERO_WORD then None else Some(w.frame)
        else
          child.Some? && child.value !in old(Used()) && Used() == old(Used()) + {child.value} &&
          FreeFrames() == old(FreeFrames()) - 1 &&
          TableAt(phys, root, a + [i]) == Some(child.value) && phys[child.value] == ZERO_PAGE &&
          child.value < |phys| &&
          StoredAt(old(phys), phys, old(Used()), t, i, Word(child.value, flags + {PRESENT, WRITABLE}))
      ensures TableAt(phys, root, a + [i]).Some? ==> TableAt(phys, root, a + [i]).value < |phys|
      ensures forall b: Path | |b| <= 3 && ValidPath(b) && b != a + [i] ::
        TableAt(phys, root, b) == old(TableAt(phys, root, b))
      ensures old(TableAt(phys, root, a + [i])).Some? ==>
        TableAt(phys, root, a + [i]) == old(TableAt(phys, root, a + [i]))
      ensures forall page: Path | |page| == 4 && ValidPath(page) ::
        Flat(phys, root, page) == old(Flat(phys, root, page))
      ensures TablesFresh(old(phys), phys, root, old(Used())) && old(Used()) <= Used()
      ensures OnlyFills(old(phys), phys, root, a + [i], flags)
      ensures AgreeOn(old(phys), phys, old(Used()) - {t})
      ensures old(TopPlain(phys, root)) ==> TopPlain(phys, root)
    {
      hide OnlyFills;
      FillsNothing(phys, root, a + [i], flags);
      if phys[t][i] == ZERO_WORD {
        if !create {
          return None;
        }
        var f := KallocFrame();
        ghost var p := phys;
        var w := Word(f, flags + {PRESENT, WRITABLE});
        phys := Store(phys, t, i, w);
        phys := phys[f := ZERO_PAGE];
        assert ValidPath(a) by { assert forall k | 0 <= k < |a| :: a[k] == (a + [i])[k]; }
        assert t in old(Used());
        NewTable(p, phys, root, old(Used()), a, i, w);
        NewTableWords(p, phys, root, old(Used()), a, i, w, flags);
        StoreKeepsTop(p, phys, root, old(Used()), a, i, w);
        child := Some(f);
      } else {
        child := Some(phys[t][i].frame);
      }
    }

    /** The step from the last-level table: the word for `page`, filled with a fresh frame if asked to. */
    method PageBelow(ghost root: nat, page: Path, t: nat, flags: set<nat>, create: bool) returns (frame: nat)
      requires Valid() && TreeMap(phys, root, Used())
      requires |page| == 4 && ValidPath(page) && TableAt(phys, root, page[..3]) == Some(t)
      requires create && phys[t][page[3]] == ZERO_WORD ==> FreeFrames() > 0
      modifies this, memoryMap
      ensures Valid() && TreeMap(phys, root, Used())
      ensures frame == Flat(phys, root, page).frame
      ensures var w := old(Flat(phys, root, page));
        if w != ZERO_WORD || !create then
          phys == old(phys) && Used() == old(Used())
        else
          frame !in old(Used()) && Used() == old(Used()) + {frame} && FreeFrames() == old(FreeFrames()) - 1 &&
          Flat(phys, root, page) == Word(frame, flags + {PRESENT, WRITABLE}) &&
          forall a: Path | |a| <= 3 && ValidPath(a) :: TableAt(phys, root, a) != Some(frame)
      ensures OnlyFills(old(phys), phys, root, page, flags)
      ensures AgreeOn(old(phys), phys, old(Used()) - {t})
      ensures PathTables(phys, root, page) == old(PathTables(phys, root, page)) <= old(Used())
      ensures forall b: Path | |b| <= 3 && ValidPath(b) :: TableAt(phys, root, b) == old(TableAt(phys, root, b))
      ensures forall o: Path | |o| == 4 && ValidPath(o) && o != page :: Flat(phys, root, o) == old(Flat(phys, root, o))
      ensures old(TopPlain(phys, root)) ==> TopPlain(phys, root)
    {
      hide OnlyFills;
      PathSteps(page);
      FillsNothing(phys, root, page, flags);
      if phys[t][page[3]] == ZERO_WORD {
        if !create {
          return 0;
        }
        var f := KallocFrame();
        ghost var p := phys;
        var w := Word(f, flags + {PRESENT, WRITABLE});
        phys := Store(phys, t, page[3], w);
        LeafStore(p, phys, root, old(Used()), page, w);
        LeafFills(p, phys, root, old(Used()), page, w, flags);
        StoreKeepsTop(p, phys, root, old(Used()), page[..3], page[3], w);
      }
      frame := phys[t][page[3]].frame;
    }

    /** The first two steps of page creation, down to the page directory. */
    method WalkToDirectory(root: nat, page: Path, flags: set<nat>, create: bool) returns (pd: Option<nat>)
      requires Valid() && TreeMap(phys, root, Used()) && root < |phys|
      requires |page| == 4 && ValidPath(page) && LARGE !in flags
      requires LARGE !in phys[root][page[0]].bits
      requires create ==> FreeFrames() + 1 >= Missing(phys, root, page, 0)
      modifies this, memoryMap
      ensures Valid() && TreeMap(phys, root, Used())
      ensures forall o: Path | |o| == 4 && ValidPath(o) :: Flat(phys, root, o) == old(Flat(phys, root, o))
      ensures pd.None? ==> old(BlockedAt(phys, root, page, 1)) || (!create && old(TableAt(phys, root, page[..2])).None?)
      ensures pd.None? || !create || old(TableAt(phys, root, page[..2])).Some? ==>
        phys == old(phys) && Used() == old(Used())
      ensures TableAt(phys, root, page[..2]) == pd
      ensures pd.Some? ==> pd.value < |phys| && !old(BlockedAt(phys, root, page, 1))
      ensures pd.Some? && old(TableAt(phys, root, page[..2])).None? ==> phys[pd.value] == ZERO_PAGE
      ensures old(Used()) <= Used() <= old(Used()) + TableSet(phys, root, page[..1]) + TableSet(phys, root, page[..2])
      ensures TablesFresh(old(phys), phys, root, old(Used()))
      ensures TablesKept(old(phys), phys, root, page)
      ensures OnlyFills(old(phys), phys, root, page[..2], flags)
      ensures AgreeOn(old(phys), phys, old(Used()) - {root} - TableSet(phys, root, page[..1]))
      ensures old(TopPlain(phys, root)) ==> TopPlain(phys, root)
      ensures create && pd.Some? ==>
        FreeFrames() - Missing(phys, pd.value, page, 2) == old(FreeFrames() - Missing(phys, root, page, 0))
      ensures create && pd.None? ==> old(Missing(phys, root, page, 0)) == 0
    {
      hide TreeMap, TablesFresh, TopPlain, StoredAt, TablesKept, OnlyFills;
      PathSteps(page);
      ghost var p0, u0 := phys, Used();
      KeptSame(p0, root, page);
      var pdp := TableBelow(root, [], root, page[0], flags, create);
      KeptStep(p0, p0, phys, root, page, 1);
      if pdp.None? {
        FillsNothing(p0, root, page[..2], flags);
        FreshSame(p0, root, u0);
        return None;
      }
      ghost var p1, u1 := phys, Used();
      pd := TableBelow(root, page[..1], pdp.value, page[1], flags, create);
      FreshCompose(p0, p1, phys, root, u0, u1);
      KeptStep(p0, p1, phys, root, page, 2);
      FillsDown(p0, p1, phys, root, page, 1, flags);
      if pd.None? {
        return None;
      }
      if LARGE in phys[pdp.value][page[1]].bits {
        return None;
      }
    }

    /** The first three steps of page creation, down to the last-level table. */
    method WalkToTable(root: nat, page: Path, flags: set<nat>, create: bool) returns (pt: Option<nat>)
      requires Valid() && TreeMap(phys, root, Used()) && root < |phys|
      requires |page| == 4 && ValidPath(page) && LARGE !in flags
      requires LARGE !in phys[root][page[0]].bits
      requires create ==> FreeFrames() + 1 >= Missing(phys, root, page, 0)
      modifies this, memoryMap
      ensures Valid() && TreeMap(phys, root, Used())
      ensures forall o: Path | |o| == 4 && ValidPath(o) :: Flat(phys, root, o) == old(Flat(phys, root, o))
      ensures pt.None? ==> old(Blocked(phys, root, page)) || (!create && old(TableAt(phys, root, page[..3])).None?)
      ensures pt.None? || !create || old(TableAt(phys, root, page[..3])).Some? ==>
        phys == old(phys) && Used() == old(Used())
      ensures TableAt(phys, root, page[..3]) == pt
      ensures pt.Some? ==> pt.value < |phys| && !old(Blocked(phys, root, page))
      ensures old(Used()) <= Used() <= old(Used()) + PathTables(phys, root, page)
      ensures TablesFresh(old(phys), phys, root, old(Used()))
      ensures TablesKept(old(phys), phys, root, page)
      ensures OnlyFills(old(phys), phys, root, page[..3], flags)
      ensures AgreeOn(old(phys), phys, old(Used()) - {root} - PathTables(phys, root, page))
      ensures old(TopPlain(phys, root)) ==> TopPlain(phys, root)
      ensures create && pt.Some? ==>
        FreeFrames() - Missing(phys, pt.value, page, 3) == old(FreeFrames() - Missing(phys, root, page, 0))
      ensures create && pt.None? ==> old(Missing(phys, root, page, 0)) == 0
    {
      hide TreeMap, TablesFresh, TopPlain, StoredAt, TablesKept, OnlyFills;
      PathSteps(page);
      ghost var p0, u0 := phys, Used();
      pt := WalkToDirectory(root, page, flags, create);
      FillsNothing(phys, root, page[..3], flags);
      FillsFurther(p0, phys, phys, root, page[..2], page[..3], page[..3], flags);
      if pt.Some? {
        var pd := pt.value;
        ghost var before, u1 := phys, Used();
        pt := TableBelow(root, page[..2], pd, page[2], flags, create);
        FreshCompose(p0, before, phys, root, u0, u1);
        KeptStep(p0, before, phys, root, page, 3);
        FillsFurther(p0, before, phys, root, page[..2], page[..3], page[..3], flags);
        assert TableAt(phys, root, page[..1]) == TableAt(before, root, page[..1]);
        assert TableAt(phys, root, page[..2]) == TableAt(before, root, page[..2]);
        if LARGE in phys[pd][page[2]].bits {
          pt := None;
        }
      }
    }

    /** Page creation; 0 stands for the null address. */
    method CreateOrGetPage(root: nat, page: Path, flags: set<nat>, create: bool) returns (frame: nat)
      requires Valid() && TreeMap(phys, root, Used()) && root < |phys|
      requires |page| == 4 && ValidPath(page) && LARGE !in flags
      requires LARGE !in phys[root][page[0]].bits
      requires create ==> FreeFrames() >= Missing(phys, root, page, 0)
      modifies this, memoryMap
      ensures Valid() && TreeMap(phys, root, Used())
      ensures frame == Flat(phys, root, page).frame
      // Only the requested page's translation may change, and a page already mapped keeps its own.
      ensures forall o: Path | |o| == 4 && ValidPath(o) && o != page :: Flat(phys, root, o) == old(Flat(phys, root, o))
      ensures forall o: Path | |o| == 4 && ValidPath(o) && o != page ::
        Translate(phys, root, o, 0) == old(Translate(phys, root, o, 0)) &&
        UserPath(phys, root, o, 0) == old(UserPath(phys, root, o, 0))
      ensures OnlyFills(old(phys), phys, root, page, flags)
      ensures old(Flat(phys, root, page)) != ZERO_WORD || !create || old(Blocked(phys, root, page)) ==>
        phys == old(phys) && Used() == old(Used())
      // A new page gets a frame that was free and is none of the map's tables.
      ensures old(Flat(phys, root, page)) == ZERO_WORD && create && !old(Blocked(phys, root, page)) ==>
        Flat(phys, root, page) == Word(frame, flags + {PRESENT, WRITABLE}) && frame !in old(Used()) &&
        (forall a: Path | |a| <= 3 && ValidPath(a) :: TableAt(phys, root, a) != Some(frame)) &&
        Used() == old(Used()) + PathTables(phys, root, page) + {frame}
      // New tables lie in frames that were free, and no more frames are taken than are missing.
      ensures TablesFresh(old(phys), phys, root, old(Used()))
      ensures TablesKept(old(phys), phys, root, page)
      ensures create ==> FreeFrames() == old(FreeFrames() - Missing(phys, root, page, 0))
      // No frame in use changes but the tables on the way.
      ensures old(Used()) <= Used() && AgreeOn(old(phys), phys, old(Used()) - {root} - PathTables(phys, root, page))
      ensures old(TopPlain(phys, root)) ==> TopPlain(phys, root)
      ensures old(SoundMap(phys, root, Used())) ==> SoundMap(phys, root, Used())
    {
      hide TreeMap, PathTables, Blocked, TablesFresh, TablesKept, TopPlain, SoundMap, AgreeOn, OnlyFills,
        Translate, UserPath;
      ghost var p0, u0 := phys, Used();
      var pt := WalkToTable(root, page, flags, create);
      FillsNothing(phys, root, page, flags);
      FillsFurther(p0, phys, phys, root, page[..3], page, page, flags);
      FilledApart(p0, phys, root, page, flags);
      if pt.None? {
        return 0;
      }
      ghost var p1, u1 := phys, Used();
      frame := PageBelow(root, page, pt.value, flags, create);
      FillsFurther(p0, p1, phys, root, page[..3], page, page, flags);
      FilledApart(p0, phys, root, page, flags);
      SameTablesFresh(p0, p1, phys, root, u0);
      SameTablesKept(p0, p1, phys, root, page);
      AgreeOffPath(p0, p1, phys, u0, u1, root, page, pt.value);
      if SoundMap(p0, root, u0) {
        SoundGrows(p0, phys, root, u0, Used(), page);
      }
    }

    /** Maps a given frame, replacing whatever word the page had.  The caller has no large page on the path. */
    method MapFrame(root: nat, frame: FrameNo, page: Path, flags: set<nat>)
      requires Valid() && TreeMap(phys, root, Used()) && root < |phys|
      requires |page| == 4 && ValidPath(page)
      requires LARGE !in phys[root][page[0]].bits && !Blocked(phys, root, page)
      requires FreeFrames() + 1 >= Missing(phys, root, page, 0)
      modifies this, memoryMap
      ensures Valid()
      ensures Flat(phys, root, page) == Word(frame, flags + {PRESENT, WRITABLE})
      ensures forall o: Path | |o| == 4 && ValidPath(o) && o != page :: Flat(phys, root, o) == old(Flat(phys, root, o))
      ensures forall o: Path | |o| == 4 && ValidPath(o) && o != page ::
        Translate(phys, root, o, 0) == old(Translate(phys, root, o, 0)) &&
        UserPath(phys, root, o, 0) == old(UserPath(phys, root, o, 0))
      ensures FillsAbove(old(phys), phys, root, page, set b | b in flags && b < 6)
      ensures old(Used()) <= Used() <= old(Used()) + PathTables(phys, root, page)
      ensures TablesFresh(old(phys), phys, root, old(Used()))
      ensures TablesKept(old(phys), phys, root, page)
      ensures frame in old(Used()) || frame >= BITMAP_SIZE ==> TreeMap(phys, root, Used())
    {
      hide TreeMap, TablesFresh, TablesKept, TopPlain, Blocked, PathTables, OnlyFills, FillsAbove,
        Translate, UserPath;
      ghost var p0, u0 := phys, Used();
      var pt := WalkToTable(root, page, set b | b in flags && b < 6, true);
      ghost var p := phys;
      StoreLeaf(root, page, pt.value, Word(frame, flags + {PRESENT, WRITABLE}));
      MappedApart(p0, p, phys, root, page, set b | b in flags && b < 6);
      SameTablesFresh(p0, p, phys, root, u0);
      SameTablesKept(p0, p, phys, root, page);
    }

    /** The store that ends the mapping. */
    method StoreLeaf(ghost root: nat, page: Path, t: nat, w: Word)
      requires Valid() && TreeMap(phys, root, Used()) && t < |phys|
      requires |page| == 4 && ValidPath(page) && TableAt(phys, root, page[..3]) == Some(t)
      modifies this`phys
      ensures Valid() && phys == Store(old(phys), t, page[3], w)
      ensures Flat(phys, root, page) == w && PathTables(phys, root, page) == old(PathTables(phys, root, page))
      ensures forall o: Path | |o| == 4 && ValidPath(o) && o != page :: Flat(phys, root, o) == old(Flat(phys, root, o))
      ensures forall a: Path | |a| <= 3 && ValidPath(a) :: TableAt(phys, root, a) == old(TableAt(phys, root, a))
      ensures forall o: Path, k: nat | |o| == 4 && ValidPath(o) && k < 4 ::
        WordOn(phys, root, o, k) == if o == page && k == 3 then w else old(WordOn(phys, root, o, k))
      ensures w.frame in Used() || w.frame >= BITMAP_SIZE ==> TreeMap(phys, root, Used())
    {
      ghost var p := phys;
      phys := Store(phys, t, page[3], w);
      LeafStore(p, phys, root, Used(), page, w);
      LeafWords(p, phys, root, Used(), page, w);
      PathSteps(page);
    }

    /** memmgr_check_user. */
    method CheckUser(root: nat, page: Path) returns (ok: bool)
      requires Valid() && root < |phys|
      requires |page| == 4 && ValidPath(page)
      ensures ok == UserPath(phys, root, page, 0)
    {
      var w4 := phys[root][page[0]];
      if USER !in w4.bits {
        return false;
      }
      if LARGE in w4.bits {
        return true;
      }
      var w3 := phys[w4.frame][page[1]];
      if USER !in w3.bits {
        return false;
      }
      if LARGE in w3.bits {
        return true;
      }
      var w2 := phys[w3.frame][page[2]];
      if USER !in w2.bits {
        return false;
      }
      if LARGE in w2.bits {
        return true;
      }
      return USER in phys[w2.frame][page[3]].bits;
    }

    /** Unmaps a page and gives its frame back.  An empty entry on the way is not tested for: see DeleteTarget. */
    method DeletePage(root: nat, page: Path)
      requires Valid() && root < |phys|
      requires |page| == 4 && ValidPath(page)
      modifies this, memoryMap
      ensures phys == Deleted(old(phys), root, page) && Used() == old(Used()) - old(Released(phys, root, page))
      ensures Valid() <==> 0 !in old(Released(phys, root, page))
      // Where the page has its tables, or a large page ends the walk, a sound map stays sound exactly when nothing else
      // of the map is in the frame; for the process's own pages nothing ever is.
      ensures old(SoundMap(phys, root, Used()) && StraysNot(phys, root, page)) ==>
        (SoundMap(phys, root, Used()) <==> old(Alone(phys, root, page)))
      ensures old(SoundMap(phys, root, Used())) && PrivatePath(page) ==> old(Alone(phys, root, page))
      ensures old(SoundMap(phys, root, Used()) && StraysNot(phys, root, page) && TopPlain(phys, root)) ==>
        TopPlain(phys, root)
      ensures FreeFrames() >= old(FreeFrames())
    {
      hide SoundMap, TopPlain;
      ghost var p, used := phys, Used();
      if SoundMap(p, root, used) && StraysNot(p, root, page) {
        DeleteSound(p, root, used, page);
      }
      var w4 := phys[root][page[0]];
      if LARGE in w4.bits {
        return;
      }
      var w3 := phys[w4.frame][page[1]];
      if LARGE in w3.bits {
        return;
      }
      var w2 := phys[w3.frame][page[2]];
      if LARGE in w2.bits {
        return;
      }
      var leaf := phys[w2.frame][page[3]];
      if PRESENT in leaf.bits {
        KfreeFrame(leaf.frame);
      }
      phys := Store(phys, w2.frame, page[3], ZERO_WORD);
      assert Used() == used - FrameOf(leaf);
    }

    /** What a process asks of its own map: a page, or the end of one. */
    method Perform(root: nat, request: Request)
      requires Valid() && SoundMap(phys, root, Used()) && TopPlain(phys, root) && request.Proper()
      requires request.MapPage? ==> FreeFrames() >= Missing(phys, root, request.page, 0)
      modifies this, memoryMap
      ensures Valid() && SoundMap(phys, root, Used()) && TopPlain(phys, root)
      ensures forall o: Path | |o| == 4 && ValidPath(o) && o != request.page ::
        Flat(phys, root, o) == old(Flat(phys, root, o))
      ensures FreeFrames() >= old(FreeFrames()) - 4
    {
      hide SoundMap, TreeMap, TopPlain, UserPath;
      SoundParts(phys, root, Used(), request.page);
      match request {
        case MapPage(page, flags) =>
          MissingBound(phys, root, page, 0);
          var frame := CreateOrGetPage(root, page, flags, true);
        case UnmapPage(page) =>
          var mapped := CheckUser(root, page);
          if mapped {
            CheckedTarget(phys, root, Used(), page);
            DeletePage(root, page);
          }
      }
    }

    /** Over every run of such requests the map stays sound: different pages in different frames, none of them a
        table. */
    method Serve(root: nat, requests: seq<Request>)
      requires Valid() && SoundMap(phys, root, Used()) && TopPlain(phys, root) && FreeFrames() >= 4 * |requests|
      requires forall r <- requests :: r.Proper()
      modifies this, memoryMap
      ensures Valid() && SoundMap(phys, root, Used())
      ensures forall o: Path | |o| == 4 && ValidPath(o) && (forall r <- requests :: r.page != o) ::
        Flat(phys, root, o) == old(Flat(phys, root, o))
    {
      hide SoundMap, TopPlain, Flat, Missing;
      for i := 0 to |requests|
        invariant Valid() && SoundMap(phys, root, Used()) && TopPlain(phys, root)
        invariant FreeFrames() >= 4 * (|requests| - i)
        invariant forall o: Path | |o| == 4 && ValidPath(o) && (forall r <- requests :: r.page != o) ::
          Flat(phys, root, o) == old(Flat(phys, root, o))
      {
        assert requests[i] in requests;
        MissingBound(phys, root, requests[i].page, 0);
        Perform(root, requests[i]);
      }
    }
  }

  datatype Request = MapPage(page: Path, flags: set<nat>) | UnmapPage(page: Path) {
    ghost predicate Proper() {
      |page| == 4 && ValidPath(page) && if MapPage? then LARGE !in flags else PrivatePath(page)
    }
  }

  lemma {:induction false} MissingBound(p: Phys, t: nat, page: Path, k: nat)
    requires |page| == 4 && k <= 3
    ensures Missing(p, t, page, k) <= 4 - k
    decreases 3 - k
  {
    if t < |p| && page[k] < ENTRIES && k < 3 {
      MissingBound(p, p[t][page[k]].frame, page, k + 1);
    }
  }

  lemma {:induction false} SoundParts(p: Phys, root: nat, used: set<nat>, page: Path)
    requires SoundMap(p, root, used) && TopPlain(p, root) && |page| == 4 && ValidPath(page)
    ensures TreeMap(p, root, used) && root < |p| && LARGE !in p[root][page[0]].bits
  {
  }

  /** A page that memmgr_check_user lets pass has its tables, or a large page above it. */
  lemma {:induction false} CheckedTarget(p: Phys, root: nat, used: set<nat>, page: Path)
    requires SoundMap(p, root, used) && |p| == FRAME_LIMIT && root < |p| && |page| == 4 && ValidPath(page)
    requires UserPath(p, root, page, 0)
    ensures StraysNot(p, root, page)
    ensures 0 !in Released(p, root, page)
    ensures forall o: Path | |o| == 4 && ValidPath(o) && o != page ::
      Flat(Deleted(p, root, page), root, o) == Flat(p, root, o)
  {
    UserTables(p, root, page);
    if DeleteTarget(p, root, page).Some? {
      DeleteTargetOfMapped(p, root, page);
      DeleteUnmapsOne(p, root, used, page);
      var w := Flat(p, root, page);
      assert PRESENT in w.bits ==> w.frame != 0;
    }
  }

  lemma {:induction false} UserTables(p: Phys, root: nat, page: Path)
    requires |p| == FRAME_LIMIT && root < |p| && |page| == 4 && ValidPath(page) && UserPath(p, root, page, 0)
    ensures StraysNot(p, root, page)
  {
    TableSteps(p, root, page);
    var w4 := p[root][page[0]];
    if LARGE !in w4.bits {
      assert UserPath(p, w4.frame, page, 1);
      var w3 := p[w4.frame][page[1]];
      if LARGE !in w3.bits {
        assert UserPath(p, w3.frame, page, 2);
      }
    }
  }

  /** Where the tables of a page exist, the check asks for the user bit in all four words on its path. */
  lemma {:induction false} UserPathWords(p: Phys, root: nat, page: Path)
    requires |p| == FRAME_LIMIT && root < |p| && |page| == 4 && ValidPath(page) && TableAt(p, root, page[..3]).Some?
    ensures UserPath(p, root, page, 0) <==>
      USER in Flat(p, root, page).bits &&
      forall k | 0 <= k < 3 :: TableAt(p, root, page[..k]).Some? && TableAt(p, root, page[..k]).value < |p| &&
                               USER in p[TableAt(p, root, page[..k]).value][page[k]].bits
  {
    TableSteps(p, root, page);
    assert page[..0] == [];
    var t1, t2, t3 := TableAt(p, root, page[..1]).value, TableAt(p, root, page[..2]).value,
      TableAt(p, root, page[..3]).value;
    assert UserPath(p, root, page, 0) == (USER in p[root][page[0]].bits && UserPath(p, t1, page, 1));
    assert UserPath(p, t1, page, 1) == (USER in p[t1][page[1]].bits && UserPath(p, t2, page, 2));
    assert UserPath(p, t2, page, 2) == (USER in p[t2][page[2]].bits && UserPath(p, t3, page, 3));
  }

  function FrameOf(w: Word): set<nat> {
    if PRESENT in w.bits then {w.frame} else {}
  }

  /** The last-level table memmgr_delete_page ends at: empty entries are followed to frame 0. */
  function DeleteTarget(p: Phys, root: nat, page: Path): (t: Option<nat>)
    requires |p| == FRAME_LIMIT && root < |p| && |page| == 4 && ValidPath(page)
    ensures t.Some? ==> t.value < |p|
  {
    var w4 := p[root][page[0]];
    if LARGE in w4.bits then None else
    var w3 := p[w4.frame][page[1]];
    if LARGE in w3.bits then None else
    var w2 := p[w3.frame][page[2]];
    if LARGE in w2.bits then None else Some(w2.frame)
  }

  /** The frame it gives back: that of the word it ends at. */
  function Released(p: Phys, root: nat, page: Path): set<nat>
    requires |p| == FRAME_LIMIT && root < |p| && |page| == 4 && ValidPath(page)
  {
    match DeleteTarget(p, root, page)
    case None => {}
    case Some(t) => FrameOf(p[t][page[3]])
  }

  /** The walk of memmgr_delete_page ends at the page's own table, or at a large page. */
  predicate StraysNot(p: Phys, root: nat, page: Path)
    requires |p| == FRAME_LIMIT && root < |p| && |page| == 4 && ValidPath(page)
  {
    TableAt(p, root, page[..3]).Some? || DeleteTarget(p, root, page).None?
  }

  function Deleted(p: Phys, root: nat, page: Path): (q: Phys)
    requires |p| == FRAME_LIMIT && root < |p| && |page| == 4 && ValidPath(page)
    ensures |q| == |p|
  {
    match DeleteTarget(p, root, page)
    case None => p
    case Some(t) => Store(p, t, page[3], ZERO_WORD)
  }

  lemma DeleteTargetOfMapped(p: Phys, root: nat, page: Path)
    requires |p| == FRAME_LIMIT && root < |p| && |page| == 4 && ValidPath(page)
    requires TableAt(p, root, page[..3]).Some?
    ensures DeleteTarget(p, root, page) == TableAt(p, root, page[..3])
  {
    TableSteps(p, root, page);
  }

  /** With its tables in place, deleting a page unmaps that page and no other, and returns its frame. */
  lemma DeleteUnmapsOne(p: Phys, root: nat, used: set<nat>, page: Path)
    requires |p| == FRAME_LIMIT && root < |p| && |page| == 4 && ValidPath(page)
    requires TreeMap(p, root, used) && TableAt(p, root, page[..3]).Some?
    ensures Flat(Deleted(p, root, page), root, page) == ZERO_WORD
    ensures forall o: Path | |o| == 4 && ValidPath(o) && o != page ::
      Flat(Deleted(p, root, page), root, o) == Flat(p, root, o)
    ensures forall o: Path | |o| == 4 && ValidPath(o) ::
      Translate(Deleted(p, root, page), root, o, 0) == if o == page then Unmapped else Translate(p, root, o, 0)
    ensures var frame := FrameOf(Flat(p, root, page));
      (forall o: Path | |o| == 4 && ValidPath(o) && o != page :: FrameOf(Flat(p, root, o)) !! frame) &&
      (forall a: Path | |a| <= 3 && ValidPath(a) :: TableSet(p, root, a) !! frame) ==>
      TreeMap(Deleted(p, root, page), root, used - frame)
  {
    DeleteTargetOfMapped(p, root, page);
    var q := Deleted(p, root, page);
    PathSteps(page);
    LeafStore(p, q, root, used, page, ZERO_WORD);
    LeafTranslations(p, q, root, used, page, ZERO_WORD);
    hide Translate;
    var frame := FrameOf(Flat(p, root, page));
    if (forall a: Path | |a| <= 3 && ValidPath(a) :: TableSet(p, root, a) !! frame) {
      forall a: Path | |a| <= 3 && ValidPath(a) && TableAt(q, root, a).Some?
        ensures TableAt(q, root, a).value in used - frame
      {
        assert TableSet(p, root, a) !! frame;
      }
    }
  }

  /** Deletion that does not stray keeps a sound map sound, without the page's frame, exactly when nothing else of the
      map is in that frame. */
  lemma {:induction false} DeleteSound(p: Phys, root: nat, used: set<nat>, page: Path)
    requires |p| == FRAME_LIMIT && root < |p| && |page| == 4 && ValidPath(page)
    requires SoundMap(p, root, used) && StraysNot(p, root, page)
    ensures Released(p, root, page) == FrameOf(Flat(p, root, page))
    ensures SoundMap(Deleted(p, root, page), root, used - Released(p, root, page)) <==> Alone(p, root, page)
    ensures PrivatePath(page) ==> Alone(p, root, page)
    ensures TopPlain(p, root) ==> TopPlain(Deleted(p, root, page), root)
    ensures TableAt(p, root, page[..3]).Some? ==> DeleteTarget(p, root, page) == TableAt(p, root, page[..3])
  {
    if PrivatePath(page) {
      PrivateAlone(p, root, page);
    }
    if TableAt(p, root, page[..3]).Some? {
      DeleteTargetOfMapped(p, root, page);
      var q := Deleted(p, root, page);
      PathSteps(page);
      LeafStore(p, q, root, used, page, ZERO_WORD);
      StoreKeepsTop(p, q, root, used, page[..3], page[3], ZERO_WORD);
      SoundShrinks(p, q, root, used, page, FrameOf(Flat(p, root, page)));
      hide SoundMap, TreeMap, TopPlain, Flat;
    } else {
      assert used - {} == used;
    }
  }

  /** Deleting touches no word but the page's own exactly when that word exists, a large page stops the walk,
      or the word it strays to is already zero. */
  lemma DeleteConfined(p: Phys, root: nat, page: Path)
    requires |p| == FRAME_LIMIT && root < |p| && |page| == 4 && ValidPath(page)
    ensures (forall t, i | 0 <= t < |p| && 0 <= i < ENTRIES &&
               !(TableAt(p, root, page[..3]) == Some(t) && i == page[3]) ::
               Deleted(p, root, page)[t][i] == p[t][i]) <==>
            TableAt(p, root, page[..3]).Some? || DeleteTarget(p, root, page).None? ||
            p[DeleteTarget(p, root, page).value][page[3]] == ZERO_WORD
  {
    if TableAt(p, root, page[..3]).Some? {
      DeleteTargetOfMapped(p, root, page);
    } else if DeleteTarget(p, root, page).Some? {
      var t := DeleteTarget(p, root, page).value;
      assert Deleted(p, root, page)[t][page[3]] == ZERO_WORD;
    }
  }

  /** The walk to a page reads the word in slot `i` of frame `t` at depth k. */
  ghost predicate Reads(p: Phys, root: nat, t: nat, i: nat, o: Path, k: nat) {
    k <= 3 && |o| == 4 && o[k] == i && TableAt(p, root, o[..k]) == Some(t)
  }

  /** A mapped page other than the one deleted is reached through the word that is zeroed. */
  ghost predicate Hits(p: Phys, root: nat, page: Path, o: Path, k: nat)
    requires |p| == FRAME_LIMIT && root < |p| && |page| == 4 && ValidPath(page)
  {
    DeleteTarget(p, root, page).Some? && ValidPath(o) && o != page &&
    Reads(p, root, DeleteTarget(p, root, page).value, page[3], o, k) && Flat(p, root, o) != ZERO_WORD
  }

  /** Deletion changes the translation of another page of the map exactly when it hits one. */
  lemma {:induction false} DeleteHits(p: Phys, root: nat, used: set<nat>, page: Path)
    requires |p| == FRAME_LIMIT && root < |p| && |page| == 4 && ValidPath(page) && TreeMap(p, root, used)
    ensures (forall o: Path | |o| == 4 && ValidPath(o) && o != page ::
               Flat(Deleted(p, root, page), root, o) == Flat(p, root, o)) <==>
            !exists o: Path, k: nat :: Hits(p, root, page, o, k)
  {
    hide TreeMap, Flat, TableAt, DeleteTarget, Deleted;
    forall o: Path | |o| == 4 && ValidPath(o) && o != page
      ensures Flat(Deleted(p, root, page), root, o) == Flat(p, root, o) <==> !exists k: nat :: Hits(p, root, page, o, k)
    {
      DeleteHitsPage(p, root, used, page, o);
    }
  }

  lemma {:induction false} DeleteHitsPage(p: Phys, root: nat, used: set<nat>, page: Path, o: Path)
    requires |p| == FRAME_LIMIT && root < |p| && |page| == 4 && ValidPath(page) && TreeMap(p, root, used)
    requires |o| == 4 && ValidPath(o) && o != page
    ensures Flat(Deleted(p, root, page), root, o) == Flat(p, root, o) <==> !exists k: nat :: Hits(p, root, page, o, k)
  {
    hide TreeMap, DeleteTarget;
    if DeleteTarget(p, root, page).Some? {
      var t := DeleteTarget(p, root, page).value;
      if k: nat :| Reads(p, root, t, page[3], o, k) {
        ZeroedBehind(p, root, used, t, page[3], o, k);
        assert Flat(p, root, o) != ZERO_WORD ==> Hits(p, root, page, o, k);
      } else {
        StoreMissed(p, root, t, page[3], ZERO_WORD, o, 3);
      }
    }
  }

  lemma {:induction false} ZeroedBehind(p: Phys, root: nat, used: set<nat>, t: nat, i: nat, o: Path, k: nat)
    requires TreeMap(p, root, used) && ValidPath(o) && Reads(p, root, t, i, o, k) && t < |p| && i < ENTRIES
    ensures Flat(Store(p, t, i, ZERO_WORD), root, o) == ZERO_WORD
  {
    var q, a := Store(p, t, i, ZERO_WORD), o[..k];
    assert ValidPath(a) && OnlyPath(p, root, a);
    StoreKeepsOthers(p, q, root, used, a, i, ZERO_WORD, a);
    if k < 3 {
      assert o[..3][..k] == a;
      NothingBehindZero(q, root, a, i, o[..3]);
    }
  }

  /** A store that a walk does not read changes nothing for it. */
  lemma {:induction false} StoreMissed(p: Phys, root: nat, t: nat, i: nat, w: Word, o: Path, k: nat)
    requires t < |p| && i < ENTRIES && |o| == 4 && ValidPath(o) && k <= 3
    requires !exists j: nat :: Reads(p, root, t, i, o, j)
    ensures TableAt(Store(p, t, i, w), root, o[..k]) == TableAt(p, root, o[..k])
    ensures k == 3 ==> Flat(Store(p, t, i, w), root, o) == Flat(p, root, o)
    decreases k
  {
    if k > 0 {
      StoreMissed(p, root, t, i, w, o, k - 1);
      assert o[..k][..k - 1] == o[..k - 1];
      assert !Reads(p, root, t, i, o, k - 1);
    }
    assert !Reads(p, root, t, i, o, k);
  }

  /** The case the code gets wrong: an unmapped page whose walk strays through frame 0 into another page's word. */
  lemma DeleteCanStray() returns (p: Phys, page: Path)
    ensures |p| == FRAME_LIMIT && |page| == 4 && ValidPath(page)
    ensures Flat(p, 1, page) == ZERO_WORD && TableAt(p, 1, page[..1]) == None
    ensures exists o: Path :: |o| == 4 && ValidPath(o) && Flat(p, 1, o) == Word(5, {PRESENT}) &&
                              Flat(Deleted(p, 1, page), 1, o) == ZERO_WORD
  {
    p := seq(FRAME_LIMIT, _ => ZERO_PAGE);
    p := p[0 := ZERO_PAGE[0 := Word(3, {PRESENT})]];
    p := p[1 := ZERO_PAGE[1 := Word(2, {PRESENT})]];
    p := p[2 := ZERO_PAGE[0 := Word(3, {PRESENT})]];
    p := p[3 := ZERO_PAGE[0 := Word(4, {PRESENT})]];
    p := p[4 := ZERO_PAGE[0 := Word(5, {PRESENT})]];
    page := [0, 0, 0, 0];
    var other := [1, 0, 0, 0];
    var q := Deleted(p, 1, page);
    TableSteps(p, 1, page);
    TableSteps(p, 1, other);
    TableSteps(q, 1, other);
    assert DeleteTarget(p, 1, page) == Some(4);
    assert q[1] == p[1] && q[2] == p[2] && q[3] == p[3] && q[3][other[2]] == Word(4, {PRESENT});
    assert TableAt(p, 1, other[..1]) == Some(2) && TableAt(q, 1, other[..1]) == Some(2);
    assert TableAt(p, 1, other[..2]) == Some(3) && TableAt(q, 1, other[..2]) == Some(3);
    assert TableAt(p, 1, other[..3]) == Some(4) && TableAt(q, 1, other[..3]) == Some(4);
    assert TableAt(p, 1, page[..3]) == None by {
      assert TableAt(p, 1, page[..1]) == None;
    }
    assert Flat(p, 1, other) == Word(5, {PRESENT}) && Flat(q, 1, other) == ZERO_WORD;
  }
}
