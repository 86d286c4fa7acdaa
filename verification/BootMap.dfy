/**
 The page map the kernel boots with, which all others are cloned from: the first megabytes as large pages behind slot 0,
 the kernel image behind slot 510, and behind slot 509 the identity map, a table that lies in the image itself.
 */
module BootMap {
  import opened Options
  import opened PhysicalMemory
  import opened FlatMap
  import opened MemoryManagers
  import opened MapViews
  import opened CloneViews
  import opened ProcessMaps
  import opened MapRuns

  const BOOT_ROOT: nat := 1

  function LargeEntry(frame: FrameNo): Word {
    Word(frame, {PRESENT, WRITABLE, LARGE})
  }

  /** A table of 4 KiB pages over the kernel image, from a frame on. */
  function ImageRow(first: nat): Page
    requires first + ENTRIES <= FRAME_LIMIT
  {
    seq(ENTRIES, i requires 0 <= i < ENTRIES => Word(first + i, {PRESENT, WRITABLE}))
  }

  /** All of memory in pages of 1 GiB. */
  function IdentityRow(): Page {
    seq(ENTRIES, i requires 0 <= i < ENTRIES => LargeEntry(i * 0x4_0000))
  }

  /** The tables of the boot map: the root, two levels over the first megabytes, two and four last-level tables over the
      image, and the identity map. */
  function BootRow(image: nat, identity: nat, t: nat): Page
    requires image + 2048 <= 0x1001 && identity < 0x1001
  {
    match t
    case 1 =>
      var shown := Word(identity, {PRESENT, WRITABLE});
      Row(map[0 := Word(2, CLONE_BITS), 509 := shown, 510 := Word(6, CLONE_BITS)])
    case 2 => Row(map[0 := Word(3, CLONE_BITS)])
    case 3 => Row(map[0 := LargeEntry(0), 1 := LargeEntry(0x200)])
    case 6 => Row(map[0 := Word(7, CLONE_BITS)])
    case 7 =>
      var low := map[0 := Word(8, CLONE_BITS), 1 := Word(9, CLONE_BITS)];
      Row(low[2 := Word(10, CLONE_BITS)][3 := Word(11, CLONE_BITS)])
    case 8 => ImageRow(image)
    case 9 => ImageRow(image + ENTRIES)
    case 10 => ImageRow(image + 2 * ENTRIES)
    case 11 => ImageRow(image + 3 * ENTRIES)
    case _ => IdentityRow()
  }

  /** What the start-up code and memmgr_init leave in memory.  The kernel image begins at frame `image` and covers 2048
      frames, the identity map's table among them. */
  ghost predicate BootMemory(p: Phys, image: nat, identity: nat) {
    |p| == FRAME_LIMIT && 0x100 <= image && image + 2048 <= 0x1001 && image <= identity < image + 2048 &&
    forall t <- {1, 2, 3, 6, 7, 8, 9, 10, 11, identity} :: p[t] == BootRow(image, identity, t)
  }

  /** There is such a memory for every place of the image and the table in it. */
  lemma {:induction false} SomeBootMemory(image: nat, identity: nat) returns (p: Phys)
    requires 0x100 <= image && image + 2048 <= 0x1001 && image <= identity < image + 2048
    ensures BootMemory(p, image, identity)
  {
    hide BootRow;
    p := seq(FRAME_LIMIT, t requires 0 <= t < FRAME_LIMIT => BootRow(image, identity, t));
  }

  function BootTable(identity: nat, a: Path): Option<nat> {
    if |a| == 0 then Some(BOOT_ROOT)
    else if a[0] == 0 && |a| == 1 then Some(2)
    else if a[0] == 0 && |a| == 2 && a[1] == 0 then Some(3)
    else if a[0] == 509 && |a| == 1 then Some(identity)
    else if a[0] == 510 && |a| == 1 then Some(6)
    else if a[0] == 510 && |a| == 2 && a[1] == 0 then Some(7)
    else if a[0] == 510 && |a| == 3 && a[1] == 0 && a[2] < 4 then Some(8 + a[2])
    else None
  }

  lemma {:induction false} BootTables(p: Phys, image: nat, identity: nat, a: Path)
    requires BootMemory(p, image, identity) && |a| <= 3 && ValidPath(a)
    ensures TableAt(p, BOOT_ROOT, a) == BootTable(identity, a)
    decreases |a|
  {
    hide BootMemory;
    if a != [] {
      var r, i := a[..|a| - 1], a[|a| - 1];
      assert a == r + [i] && ValidPath(r);
      BootTables(p, image, identity, r);
      BootRows(p, image, identity, i);
      BootStep(identity, r, i);
    }
  }

  lemma {:induction false} BootStep(identity: nat, r: Path, i: nat)
    requires |r| <= 2
    ensures BootTable(identity, r + [i]) ==
      match BootTable(identity, r)
      case None => None
      case Some(t) =>
        if t == 1 && |r| == 0 then
          if i == 0 then Some(2) else if i == 509 then Some(identity) else if i == 510 then Some(6) else None
        else if t == 2 && |r| == 1 && r[0] == 0 then if i == 0 then Some(3) else None
        else if t == 6 && |r| == 1 && r[0] == 510 then if i == 0 then Some(7) else None
        else if t == 7 && |r| == 2 && r[0] == 510 then if i < 4 then Some(8 + i) else None
        else None
  {
  }

  /** The tables and what is not one, row by row. */
  lemma {:induction false} BootRows(p: Phys, image: nat, identity: nat, i: nat)
    requires BootMemory(p, image, identity) && i < ENTRIES
    ensures |p| == FRAME_LIMIT && identity < |p|
    ensures IsTable(p[1][i]) <==> i == 0 || i == 509 || i == 510
    ensures p[1][0].frame == 2 && p[1][509].frame == identity && p[1][510].frame == 6
    ensures (IsTable(p[2][i]) <==> i == 0) && p[2][0].frame == 3 && !IsTable(p[3][i])
    ensures (IsTable(p[6][i]) <==> i == 0) && p[6][0].frame == 7
    ensures (IsTable(p[7][i]) <==> i < 4) && (i < 4 ==> p[7][i].frame == 8 + i)
    ensures !IsTable(p[identity][i])
  {
  }

  lemma {:induction false} BootFlat(p: Phys, image: nat, identity: nat, o: Path)
    requires BootMemory(p, image, identity) && |o| == 4 && ValidPath(o)
    ensures Flat(p, BOOT_ROOT, o) ==
      if o[0] == 510 && o[1] == 0 && o[2] < 4 then Word(image + ENTRIES * o[2] + o[3], {PRESENT, WRITABLE})
      else ZERO_WORD
  {
    assert ValidPath(o[..3]);
    BootTables(p, image, identity, o[..3]);
    assert o[..3] == [o[0], o[1], o[2]];
  }

  lemma {:induction false} BootUses(p: Phys, image: nat, identity: nat, a: Path, f: nat)
    requires BootMemory(p, image, identity)
    ensures Hangs(p, BOOT_ROOT, a, f) ==> (a == [] && f == 1) || (a == [0] && f == 2) || (a == [0, 0] && f == 3)
    ensures Lent(p, BOOT_ROOT, a, f) ==> a != [] && a[0] >= PRIVATE_SLOTS && 0 < f <= 0x1000
    ensures Lent(p, BOOT_ROOT, a, f) ==> f >= 6 && (|a| <= 3 ==> BootTable(identity, a) == Some(f))
  {
    if ValidPath(a) && |a| <= 3 {
      BootTables(p, image, identity, a);
    } else if ValidPath(a) && |a| == 4 {
      BootFlat(p, image, identity, a);
    }
    hide BootMemory, TableAt, Flat;
  }

  /** The map the kernel boots with is a process's map, and so the runs can begin with it. */
  lemma {:induction false} BootIsProcess(p: Phys, image: nat, identity: nat, used: set<nat>)
    requires BootMemory(p, image, identity)
    requires (forall f: nat | f <= 0x1000 :: f in used) && forall f <- used :: f < BITMAP_SIZE
    ensures AllApart(Maps(p, used, {BOOT_ROOT}))
  {
    BootOneUse(p, image, identity, used);
    SoundByUse(p, BOOT_ROOT, used);
    BootTop(p, image, identity);
    HeldApart(p, BOOT_ROOT, used);
  }

  lemma {:induction false} BootTop(p: Phys, image: nat, identity: nat)
    requires BootMemory(p, image, identity)
    ensures TopPlain(p, BOOT_ROOT)
  {
  }

  lemma {:induction false} BootOneUse(p: Phys, image: nat, identity: nat, used: set<nat>)
    requires BootMemory(p, image, identity)
    requires (forall f: nat | f <= 0x1000 :: f in used) && forall f <- used :: f < BITMAP_SIZE
    ensures OneUse(p, BOOT_ROOT, used)
  {
    hide Hangs, Lent, TableAt, Flat;
    assert 0x100 <= identity;
    forall a: Path, f: nat
      ensures Hangs(p, BOOT_ROOT, a, f) ==> (a == [] && f == 1) || (a == [0] && f == 2) || (a == [0, 0] && f == 3)
      ensures Lent(p, BOOT_ROOT, a, f) ==> a != [] && a[0] >= PRIVATE_SLOTS && 0 < f <= 0x1000
      ensures Lent(p, BOOT_ROOT, a, f) ==> f >= 6 && (|a| <= 3 ==> BootTable(identity, a) == Some(f))
    {
      BootUses(p, image, identity, a, f);
    }
    forall a: Path, b: Path, f: nat | Lent(p, BOOT_ROOT, a, f) && Lent(p, BOOT_ROOT, b, f)
      ensures a == b || KernelAlias(a, b)
    {
      LentLength(p, BOOT_ROOT, a, f);
      LentLength(p, BOOT_ROOT, b, f);
    }
  }

  lemma {:induction false} LentLength(p: Phys, root: nat, a: Path, f: nat)
    requires Lent(p, root, a, f)
    ensures |a| <= 4
  {
  }

  /** Boot: the bitmap, and the maps of all processes, which is one. */
  method Boot(memory: Phys, image: nat, identity: nat, reserved: seq<nat>) returns (m: MemoryManager)
    requires BootMemory(memory, image, identity)
    ensures fresh(m) && fresh(m.memoryMap) && m.phys == memory
    ensures m.Valid() && AllApart(Maps(m.phys, m.Used(), {BOOT_ROOT}))
  {
    m := new MemoryManager(memory, reserved);
    BootIsProcess(memory, image, identity, m.Used());
  }

  /** Why the kernel's pages may show the kernel's tables: the identity map's table lies in the image.  So the deletion
      of that page of the image is one that does harm. */
  lemma {:induction false} IdentityShown(p: Phys, image: nat, identity: nat) returns (o: Path)
    requires BootMemory(p, image, identity)
    ensures o == [510, 0, (identity - image) / ENTRIES, (identity - image) % ENTRIES]
    ensures |o| == 4 && KernelPath(o) && PRESENT in Flat(p, BOOT_ROOT, o).bits
    ensures TableAt(p, BOOT_ROOT, [509]) == Some(Flat(p, BOOT_ROOT, o).frame as nat)
    ensures TableAt(p, BOOT_ROOT, o[..3]).Some? && !Alone(p, BOOT_ROOT, o)
  {
    var n := identity - image;
    o := [510, 0, n / ENTRIES, n % ENTRIES];
    BootFlat(p, image, identity, o);
    BootTables(p, image, identity, [509]);
    BootTables(p, image, identity, o[..3]);
  }

  /** Deleting it frees the identity map's table, which all maps still lead to. */
  method DeleteHurts(memory: Phys, image: nat, identity: nat, reserved: seq<nat>) returns (m: MemoryManager)
    requires BootMemory(memory, image, identity)
    ensures m.Valid() && !AllApart(Maps(m.phys, m.Used(), {BOOT_ROOT}))
  {
    m := Boot(memory, image, identity, reserved);
    var n := identity - image;
    ghost var o := IdentityShown(memory, image, identity);
    DeleteKernelFor(m, {BOOT_ROOT}, BOOT_ROOT, [510, 0, n / ENTRIES, n % ENTRIES]);
  }
}
