/**
 The four-level walk and the flat map it denotes.  A table is named by the path of indices that leads to it
 from the root; a virtual page by four indices.
 */
module FlatMap {
  import opened Options
  import opened PhysicalMemory

  type Path = seq<nat>

  /** The four indices of a virtual address, most significant first. */
  function Indices(address: nat): Path {
    [address / 0x80_0000_0000 % 512, address / 0x4000_0000 % 512, address / 0x20_0000 % 512, address / 0x1000 % 512]
  }

  /** The page number four indices spell. */
  function PageNumber(page: Path): nat
    requires |page| == 4
  {
    page[0] * 0x800_0000 + page[1] * 0x4_0000 + page[2] * 0x200 + page[3]
  }

  /** The walk looks at 48 bits of an address: two addresses take the same path exactly when those name
      the same page. */
  lemma {:induction false} PathOfAddress(a: nat, b: nat)
    ensures PageNumber(Indices(a)) == a / 0x1000 % 0x10_0000_0000
    ensures Indices(a) == Indices(b) <==> a / 0x1000 % 0x10_0000_0000 == b / 0x1000 % 0x10_0000_0000
  {
    IndexDigits(a);
    IndexDigits(b);
    hide Indices;
    if PageNumber(Indices(a)) == PageNumber(Indices(b)) {
      SamePage(Indices(a), Indices(b));
    }
  }

  lemma {:induction false} IndexDigits(a: nat)
    ensures |Indices(a)| == 4 && forall k | 0 <= k < 4 :: Indices(a)[k] < ENTRIES
    ensures PageNumber(Indices(a)) == a / 0x1000 % 0x10_0000_0000
  {
    var n := a / 0x1000;
    Halves(a);
    Digits(n);
    assert Indices(a) == [n / 0x800_0000 % 512, n / 0x4_0000 % 512, n / 0x200 % 512, n % 512];
  }

  lemma {:induction false} SamePage(a: Path, b: Path)
    requires |a| == |b| == 4 && PageNumber(a) == PageNumber(b)
    requires forall k | 0 <= k < 4 :: a[k] < ENTRIES && b[k] < ENTRIES
    ensures a == b
  {
    assert a[0] == b[0] && a[1] == b[1] && a[2] == b[2] && a[3] == b[3];
  }

  lemma {:induction false} Halves(a: nat)
    ensures a / 0x20_0000 == a / 0x1000 / 0x200 && a / 0x4000_0000 == a / 0x1000 / 0x4_0000
    ensures a / 0x80_0000_0000 == a / 0x1000 / 0x800_0000
  {
  }

  lemma {:induction false} Digits(n: nat)
    ensures n % 0x10_0000_0000 ==
      n / 0x800_0000 % 512 * 0x800_0000 + n / 0x4_0000 % 512 * 0x4_0000 + n / 0x200 % 512 * 0x200 + n % 512
  {
    assert n / 0x4_0000 == n / 0x200 / 512 && n / 0x800_0000 == n / 0x4_0000 / 512 &&
      n / 0x10_0000_0000 == n / 0x800_0000 / 512;
  }

  /** From table `t` at depth k on, every word of the path lets user code through, down to the page or a large page. */
  predicate UserPath(p: Phys, t: nat, page: Path, k: nat)
    requires |p| == FRAME_LIMIT && |page| == 4 && (forall j | 0 <= j < 4 :: page[j] < ENTRIES) && t < |p| && k < 4
    decreases 4 - k
  {
    USER in p[t][page[k]].bits &&
    (k == 3 || LARGE in p[t][page[k]].bits || UserPath(p, p[t][page[k]].frame, page, k + 1))
  }

  ghost predicate ValidPath(path: Path) {
    (forall k | 0 <= k < |path| :: path[k] < ENTRIES) && (path != [] ==> path[0] < 511)
  }

  /** A path through a process's own slots. */
  ghost predicate PrivatePath(path: Path) {
    ValidPath(path) && (path != [] ==> path[0] < PRIVATE_SLOTS)
  }

  function TableAt(p: Phys, root: nat, path: Path): Option<nat> {
    if path == [] then Some(root)
    else
      match TableAt(p, root, path[..|path| - 1])
      case None => None
      case Some(t) =>
        var i := path[|path| - 1];
        if t < |p| && i < ENTRIES && IsTable(p[t][i]) then Some(p[t][i].frame) else None
  }

  /** The flat map: the last-level word of a page, zero when some table on the way is missing. */
  function Flat(p: Phys, root: nat, page: Path): Word
    requires |page| == 4 && page[3] < ENTRIES
  {
    match TableAt(p, root, page[..3])
    case None => ZERO_WORD
    case Some(t) => if t < |p| then p[t][page[3]] else ZERO_WORD
  }

  ghost predicate TablesUsed(p: Phys, root: nat, used: set<nat>) {
    (forall f <- used :: f < |p|) &&
    (forall a: Path | |a| <= 3 && ValidPath(a) && TableAt(p, root, a).Some? :: TableAt(p, root, a).value in used)
  }

  /** No other path leads to the table at `a`. */
  ghost predicate OnlyPath(p: Phys, root: nat, a: Path) {
    forall b: Path | |b| <= 3 && ValidPath(b) && TableAt(p, root, b).Some? &&
      TableAt(p, root, b) == TableAt(p, root, a) :: b == a
  }

  ghost predicate LeavesUsed(p: Phys, root: nat, used: set<nat>) {
    forall page: Path | |page| == 4 && ValidPath(page) && PRESENT in Flat(p, root, page).bits ::
      Flat(p, root, page).frame in used || Flat(p, root, page).frame >= BITMAP_SIZE
  }

  /** Tables of one map are in used frames, no two paths share one, and present leaves in bitmap range are used. */
  ghost predicate TreeMap(p: Phys, root: nat, used: set<nat>) {
    TablesUsed(p, root, used) && LeavesUsed(p, root, used) &&
    forall a: Path {:trigger OnlyPath(p, root, a)} | |a| <= 3 && ValidPath(a) :: OnlyPath(p, root, a)
  }

  /** A present page of the process is in no other page's frame, as far as the bitmap manages it.  The kernel's own
      pages may be mapped more than once. */
  ghost predicate LeavesApart(p: Phys, root: nat) {
    forall o: Path, o': Path {:trigger Flat(p, root, o), Flat(p, root, o')} |
      |o| == 4 && PrivatePath(o) && |o'| == 4 && ValidPath(o') && o != o' && PRESENT in Flat(p, root, o).bits &&
      PRESENT in Flat(p, root, o').bits && Flat(p, root, o).frame < BITMAP_SIZE ::
      Flat(p, root, o).frame != Flat(p, root, o').frame
  }

  /** No present page is frame 0 or one of the map's tables, but that the kernel's pages may show the kernel's tables:
      its identity map is a table behind slot 509 and lies in the kernel image, which slot 510 maps. */
  ghost predicate LeavesNoTables(p: Phys, root: nat) {
    (forall o: Path, a: Path {:trigger Flat(p, root, o), TableAt(p, root, a)} |
       |o| == 4 && ValidPath(o) && |a| <= 3 && ValidPath(a) && (PrivatePath(o) || PrivatePath(a)) &&
       PRESENT in Flat(p, root, o).bits :: TableAt(p, root, a) != Some(Flat(p, root, o).frame as nat)) &&
    (forall o: Path | |o| == 4 && ValidPath(o) && PRESENT in Flat(p, root, o).bits :: Flat(p, root, o).frame != 0)
  }

  /** The shape every run of page creation and deletion keeps: a tree of tables, and each frame in one use. */
  ghost predicate SoundMap(p: Phys, root: nat, used: set<nat>) {
    TreeMap(p, root, used) && LeavesApart(p, root) && LeavesNoTables(p, root)
  }

  /** The tables of `q` are those of `p` and some in frames that were not used. */
  ghost predicate TablesFresh(p: Phys, q: Phys, root: nat, used: set<nat>) {
    forall a: Path {:trigger TableAt(q, root, a)} | |a| <= 3 && ValidPath(a) && TableAt(q, root, a).Some? ::
      TableAt(q, root, a) == TableAt(p, root, a) || TableAt(q, root, a).value !in used
  }

  /** The tables of `p` are where they were in `q`, and new ones lie on the way to the page. */
  ghost predicate TablesKept(p: Phys, q: Phys, root: nat, page: Path) {
    forall a: Path {:trigger TableAt(q, root, a)} |
      |a| <= 3 && ValidPath(a) && (TableAt(p, root, a).Some? || !(a <= page)) ::
      TableAt(q, root, a) == TableAt(p, root, a)
  }

  lemma {:induction false} KeptStep(p: Phys, q: Phys, r: Phys, root: nat, page: Path, k: nat)
    requires TablesKept(p, q, root, page) && k <= |page|
    requires forall a: Path | |a| <= 3 && ValidPath(a) && a != page[..k] :: TableAt(r, root, a) == TableAt(q, root, a)
    requires TableAt(q, root, page[..k]).Some? ==> TableAt(r, root, page[..k]) == TableAt(q, root, page[..k])
    ensures TablesKept(p, r, root, page)
  {
    hide TableAt, ValidPath;
  }

  lemma {:induction false} KeptSame(p: Phys, root: nat, page: Path)
    ensures TablesKept(p, p, root, page)
  {
  }

  lemma {:induction false} FreshCompose(p: Phys, q: Phys, r: Phys, root: nat, used: set<nat>, more: set<nat>)
    requires TablesFresh(p, q, root, used) && TablesFresh(q, r, root, more) && used <= more
    ensures TablesFresh(p, r, root, used)
  {
    hide TableAt, ValidPath;
  }

  /** A map that gains tables and at most one page, all in frames that were free, stays sound. */
  lemma {:induction false} SoundGrows(p: Phys, q: Phys, root: nat, used: set<nat>, more: set<nat>, page: Path)
    requires SoundMap(p, root, used) && TreeMap(q, root, more) && TablesFresh(p, q, root, used) && |page| == 4 &&
      ValidPath(page)
    requires 0 in used && forall f <- more :: f < BITMAP_SIZE
    requires forall o: Path | |o| == 4 && ValidPath(o) && o != page :: Flat(q, root, o) == Flat(p, root, o)
    requires Flat(q, root, page) == Flat(p, root, page) ||
      (Flat(q, root, page).frame !in used && Flat(q, root, page).frame < BITMAP_SIZE &&
       forall a: Path | |a| <= 3 && ValidPath(a) :: TableAt(q, root, a) != Some(Flat(q, root, page).frame as nat))
    ensures SoundMap(q, root, more)
  {
    hide TableAt, Flat, OnlyPath;
    forall o: Path, a: Path | |o| == 4 && ValidPath(o) && |a| <= 3 && ValidPath(a) &&
      PRESENT in Flat(q, root, o).bits && (PrivatePath(o) || PrivatePath(a))
      ensures TableAt(q, root, a) != Some(Flat(q, root, o).frame as nat)
    {
      assert TableAt(q, root, a) == TableAt(p, root, a) || TableAt(q, root, a).None? ||
        TableAt(q, root, a).value !in used;
      assert TableAt(q, root, a).Some? ==> TableAt(q, root, a).value in more;
      assert o != page ==> Flat(q, root, o).frame in used || Flat(q, root, o).frame >= BITMAP_SIZE;
    }
    forall o: Path | |o| == 4 && ValidPath(o) && PRESENT in Flat(p, root, o).bits
      ensures Flat(p, root, o).frame in used || Flat(p, root, o).frame >= BITMAP_SIZE
    {
    }
  }

  /** No other present page and no table has the page's frame, as far as the bitmap manages pages. */
  ghost predicate Alone(p: Phys, root: nat, page: Path)
    requires |page| == 4 && ValidPath(page)
  {
    PRESENT in Flat(p, root, page).bits ==>
      (forall a: Path | |a| <= 3 && ValidPath(a) :: TableAt(p, root, a) != Some(Flat(p, root, page).frame as nat)) &&
      (Flat(p, root, page).frame < BITMAP_SIZE ==>
         forall o: Path | |o| == 4 && ValidPath(o) && o != page && PRESENT in Flat(p, root, o).bits ::
           Flat(p, root, o).frame != Flat(p, root, page).frame)
  }

  lemma {:induction false} PrivateAlone(p: Phys, root: nat, page: Path)
    requires LeavesApart(p, root) && LeavesNoTables(p, root) && |page| == 4 && PrivatePath(page)
    ensures Alone(p, root, page)
  {
    hide TableAt, Flat;
  }

  /** A map that loses a page stays sound without the frame exactly when nothing else of the map is in it. */
  lemma {:induction false} SoundShrinks(p: Phys, q: Phys, root: nat, used: set<nat>, page: Path, gone: set<nat>)
    requires SoundMap(p, root, used) && |page| == 4 && ValidPath(page)
    requires TablesUsed(q, root, used) && forall a: Path {:trigger OnlyPath(q, root, a)} | |a| <= 3 && ValidPath(a) ::
      OnlyPath(q, root, a)
    requires forall a: Path | |a| <= 3 && ValidPath(a) :: TableAt(q, root, a) == TableAt(p, root, a)
    requires forall o: Path | |o| == 4 && ValidPath(o) ::
      Flat(q, root, o) == if o == page then ZERO_WORD else Flat(p, root, o)
    requires gone == if PRESENT in Flat(p, root, page).bits then {Flat(p, root, page).frame as nat} else {}
    ensures SoundMap(q, root, used - gone) <==> Alone(p, root, page)
  {
    if Alone(p, root, page) {
      AloneShrinks(p, q, root, used, page, gone);
    }
    if SoundMap(q, root, used - gone) {
      ShrinksAlone(p, q, root, used, page, gone);
    }
  }

  lemma {:induction false} AloneShrinks(p: Phys, q: Phys, root: nat, used: set<nat>, page: Path, gone: set<nat>)
    requires SoundMap(p, root, used) && |page| == 4 && ValidPath(page) && Alone(p, root, page)
    requires TablesUsed(q, root, used) && forall a: Path {:trigger OnlyPath(q, root, a)} | |a| <= 3 && ValidPath(a) ::
      OnlyPath(q, root, a)
    requires forall a: Path | |a| <= 3 && ValidPath(a) :: TableAt(q, root, a) == TableAt(p, root, a)
    requires forall o: Path | |o| == 4 && ValidPath(o) ::
      Flat(q, root, o) == if o == page then ZERO_WORD else Flat(p, root, o)
    requires gone == if PRESENT in Flat(p, root, page).bits then {Flat(p, root, page).frame as nat} else {}
    ensures SoundMap(q, root, used - gone)
  {
    hide TableAt, Flat, OnlyPath;
    forall a: Path | |a| <= 3 && ValidPath(a) && TableAt(q, root, a).Some?
      ensures TableAt(q, root, a).value in used - gone
    {
      assert TableAt(p, root, a) == TableAt(q, root, a);
    }
    forall o: Path | |o| == 4 && ValidPath(o) && PRESENT in Flat(q, root, o).bits
      ensures Flat(q, root, o).frame in used - gone || Flat(q, root, o).frame >= BITMAP_SIZE
    {
      assert o != page;
    }
  }

  lemma {:induction false} ShrinksAlone(p: Phys, q: Phys, root: nat, used: set<nat>, page: Path, gone: set<nat>)
    requires TreeMap(q, root, used - gone) && |page| == 4 && ValidPath(page)
    requires forall a: Path | |a| <= 3 && ValidPath(a) :: TableAt(q, root, a) == TableAt(p, root, a)
    requires forall o: Path | |o| == 4 && ValidPath(o) ::
      Flat(q, root, o) == if o == page then ZERO_WORD else Flat(p, root, o)
    requires gone == if PRESENT in Flat(p, root, page).bits then {Flat(p, root, page).frame as nat} else {}
    ensures Alone(p, root, page)
  {
    hide TableAt, Flat, OnlyPath;
    forall a: Path | |a| <= 3 && ValidPath(a) && PRESENT in Flat(p, root, page).bits
      ensures TableAt(p, root, a) != Some(Flat(p, root, page).frame as nat)
    {
      assert TableAt(q, root, a) == TableAt(p, root, a);
      assert TableAt(q, root, a).Some? ==> TableAt(q, root, a).value in used - gone;
    }
    forall o: Path | |o| == 4 && ValidPath(o) && o != page && PRESENT in Flat(p, root, o).bits
      ensures Flat(p, root, o).frame in used - gone || Flat(p, root, o).frame >= BITMAP_SIZE
    {
      assert Flat(q, root, o) == Flat(p, root, o);
    }
  }

  /** `q` is `p` with `w` stored in slot `i` of frame `t`, as far as the used frames go. */
  ghost predicate StoredAt(p: Phys, q: Phys, used: set<nat>, t: nat, i: nat, w: Word) {
    t < |p| && i < ENTRIES && q != [] && |q| == |p| && q[t] == p[t][i := w] && AgreeOn(p, q, used - {t})
  }

  /** The path enters slot `i` of the table at `a`. */
  predicate Through(a: Path, i: nat, b: Path) {
    |a| < |b| && b[..|a|] == a && b[|a|] == i
  }

  /** A store into slot `i` of the table at `a` moves only the paths that go through that slot. */
  lemma {:induction false} StoreKeepsOthers(p: Phys, q: Phys, root: nat, used: set<nat>, a: Path, i: nat, w: Word,
      b: Path)
    requires TablesUsed(p, root, used) && OnlyPath(p, root, a) && |a| <= 3 && ValidPath(a) && TableAt(p, root, a).Some?
    requires StoredAt(p, q, used, TableAt(p, root, a).value, i, w)
    requires |b| <= 3 && ValidPath(b) && !Through(a, i, b)
    ensures TableAt(q, root, b) == TableAt(p, root, b)
    decreases |b|
  {
    if b != [] {
      var r := b[..|b| - 1];
      assert ValidPath(r);
      assert !Through(a, i, r) by {
        assert |a| < |r| ==> r[..|a|] == b[..|a|];
      }
      StoreKeepsOthers(p, q, root, used, a, i, w, r);
      if TableAt(p, root, r) == TableAt(p, root, a) {
        assert r == a;
      }
    }
  }

  /** Hanging a fresh empty table in an empty slot adds that one path and leaves the flat map as it was. */
  lemma {:induction false} NewTablePath(p: Phys, q: Phys, root: nat, used: set<nat>, a: Path, i: nat, w: Word, b: Path)
    requires TablesUsed(p, root, used) && OnlyPath(p, root, a)
    requires |a| <= 2 && ValidPath(a) && TableAt(p, root, a).Some?
    requires StoredAt(p, q, used, TableAt(p, root, a).value, i, w)
    requires p[TableAt(p, root, a).value][i] == ZERO_WORD && IsTable(w)
    requires w.frame !in used && w.frame < |p| && q[w.frame] == ZERO_PAGE
    requires |b| <= 3 && ValidPath(b)
    ensures TableAt(q, root, b) == if b == a + [i] then Some(w.frame) else TableAt(p, root, b)
    decreases |b|
  {
    if !Through(a, i, b) {
      StoreKeepsOthers(p, q, root, used, a, i, w, b);
    } else {
      var r := b[..|b| - 1];
      assert ValidPath(r);
      if |b| == |a| + 1 {
        assert b == a + [i] && r == a;
        StoreKeepsOthers(p, q, root, used, a, i, w, a);
      } else {
        assert Through(a, i, r) by {
          assert r[..|a|] == b[..|a|];
        }
        assert b != a + [i];
        NewTablePath(p, q, root, used, a, i, w, r);
        NothingBehindZero(p, root, a, i, r);
      }
    }
  }

  lemma {:induction false} NothingBehindZero(p: Phys, root: nat, a: Path, i: nat, b: Path)
    requires Through(a, i, b) && TableAt(p, root, a).Some?
    requires TableAt(p, root, a).value < |p| && i < ENTRIES && p[TableAt(p, root, a).value][i] == ZERO_WORD
    ensures TableAt(p, root, b).None?
    decreases |b|
  {
    var r := b[..|b| - 1];
    if |b| == |a| + 1 {
      assert r == a;
    } else {
      assert r[..|a|] == b[..|a|];
      NothingBehindZero(p, root, a, i, r);
    }
  }

  lemma NewTable(p: Phys, q: Phys, root: nat, used: set<nat>, a: Path, i: nat, w: Word)
    requires TreeMap(p, root, used) && |a| <= 2 && ValidPath(a + [i]) && TableAt(p, root, a).Some?
    requires StoredAt(p, q, used, TableAt(p, root, a).value, i, w)
    requires p[TableAt(p, root, a).value][i] == ZERO_WORD && IsTable(w)
    requires w.frame !in used && w.frame < |p| && q[w.frame] == ZERO_PAGE
    ensures TreeMap(q, root, used + {w.frame})
    ensures TableAt(q, root, a + [i]) == Some(w.frame)
    ensures forall b: Path | |b| <= 3 && ValidPath(b) && b != a + [i] :: TableAt(q, root, b) == TableAt(p, root, b)
    ensures forall page: Path | |page| == 4 && ValidPath(page) :: Flat(q, root, page) == Flat(p, root, page)
  {
    var c := a + [i];
    assert ValidPath(a) by { assert forall k | 0 <= k < |a| :: a[k] == c[k]; }
    assert OnlyPath(p, root, a);
    forall b: Path | |b| <= 3 && ValidPath(b)
      ensures TableAt(q, root, b) == if b == c then Some(w.frame) else TableAt(p, root, b)
    {
      NewTablePath(p, q, root, used, a, i, w, b);
    }
    forall b: Path | |b| <= 3 && ValidPath(b)
      ensures OnlyPath(q, root, b)
    {
      assert OnlyPath(p, root, b);
    }
    NewTableFlat(p, q, root, used, a, i, w);
  }

  lemma NewTableFlat(p: Phys, q: Phys, root: nat, used: set<nat>, a: Path, i: nat, w: Word)
    requires TablesUsed(p, root, used) && OnlyPath(p, root, a)
    requires |a| <= 2 && ValidPath(a) && ValidPath(a + [i]) && TableAt(p, root, a).Some?
    requires StoredAt(p, q, used, TableAt(p, root, a).value, i, w)
    requires p[TableAt(p, root, a).value][i] == ZERO_WORD
    requires w.frame !in used && w.frame < |p| && q[w.frame] == ZERO_PAGE
    requires forall b: Path | |b| <= 3 && ValidPath(b) ::
               TableAt(q, root, b) == if b == a + [i] then Some(w.frame) else TableAt(p, root, b)
    ensures forall page: Path | |page| == 4 && ValidPath(page) :: Flat(q, root, page) == Flat(p, root, page)
  {
    hide TablesUsed, OnlyPath, StoredAt, Flat, TableAt;
    forall page: Path | |page| == 4 && ValidPath(page)
      ensures Flat(q, root, page) == Flat(p, root, page)
    {
      NewTableFlatAt(p, q, root, used, a, i, w, page);
    }
  }

  lemma {:induction false} NewTableFlatAt(p: Phys, q: Phys, root: nat, used: set<nat>, a: Path, i: nat, w: Word,
      page: Path)
    requires TablesUsed(p, root, used) && OnlyPath(p, root, a)
    requires |a| <= 2 && ValidPath(a) && ValidPath(a + [i]) && TableAt(p, root, a).Some?
    requires StoredAt(p, q, used, TableAt(p, root, a).value, i, w)
    requires p[TableAt(p, root, a).value][i] == ZERO_WORD
    requires w.frame !in used && w.frame < |p| && q[w.frame] == ZERO_PAGE
    requires |page| == 4 && ValidPath(page)
    requires forall b: Path | |b| <= 3 && ValidPath(b) ::
               TableAt(q, root, b) == if b == a + [i] then Some(w.frame) else TableAt(p, root, b)
    ensures Flat(q, root, page) == Flat(p, root, page)
  {
    var b := page[..3];
    assert ValidPath(b);
    hide ValidPath;
    if b == a + [i] {
      assert b[..|b| - 1] == a;
    } else if TableAt(p, root, b).Some? {
      assert TableAt(p, root, b).value in used;
    }
  }

  /** A store into a last-level table changes the flat map at that one page. */
  lemma LeafStore(p: Phys, q: Phys, root: nat, used: set<nat>, page: Path, w: Word)
    requires TreeMap(p, root, used) && |page| == 4 && ValidPath(page) && TableAt(p, root, page[..3]).Some?
    requires StoredAt(p, q, used, TableAt(p, root, page[..3]).value, page[3], w)
    ensures TablesUsed(q, root, used) && forall a: Path {:trigger OnlyPath(q, root, a)} | |a| <= 3 && ValidPath(a) ::
      OnlyPath(q, root, a)
    ensures (PRESENT in w.bits ==> w.frame in used || w.frame >= BITMAP_SIZE) ==> TreeMap(q, root, used)
    ensures forall b: Path | |b| <= 3 && ValidPath(b) :: TableAt(q, root, b) == TableAt(p, root, b)
    ensures forall o: Path | |o| == 4 && ValidPath(o) :: Flat(q, root, o) == if o == page then w else Flat(p, root, o)
  {
    var a := page[..3];
    assert a + [page[3]] == page;
    assert ValidPath(a) && OnlyPath(p, root, a);
    forall b: Path | |b| <= 3 && ValidPath(b)
      ensures TableAt(q, root, b) == TableAt(p, root, b)
    {
      StoreKeepsOthers(p, q, root, used, a, page[3], w, b);
    }
    forall b: Path | |b| <= 3 && ValidPath(b)
      ensures OnlyPath(q, root, b)
    {
      assert OnlyPath(p, root, b);
    }
    forall o: Path | |o| == 4 && ValidPath(o)
      ensures Flat(q, root, o) == if o == page then w else Flat(p, root, o)
    {
      assert ValidPath(o[..3]) && o == o[..3] + [o[3]];
    }
  }
}
