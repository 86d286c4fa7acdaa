/**
 A clone of a process's map is a process's map: the tree of frames the clone owns has the shape that creation and
 deletion of pages rely on.
 */
module CloneViews {
  import opened Options
  import opened PhysicalMemory
  import opened OwnedFrames
  import opened FlatMap
  import opened CloneRelation
  import opened MemoryManagers
  import opened PageMapCloning
  import opened CloneTheorems
  import opened MapViews

  /** A frame lies below every slot its path goes through. */
  lemma {:induction false} HangsBelow(p: Phys, root: nat, a: Path, f: nat, k: nat)
    requires Hangs(p, root, a, f) && k < |a|
    ensures TableAt(p, root, a[..k]).Some? && PrivatePath(a[..k])
    ensures f in Below(p, TableAt(p, root, a[..k]).value, 4 - k, a[k])
    decreases |a| - k
  {
    hide Own;
    if k == |a| - 1 {
      assert a[..|a| - 1] == a[..k];
      BelowOwn(p, TableAt(p, root, a[..k]).value, 4 - k, a[k]);
    } else {
      HangsBelow(p, root, a, f, k + 1);
      assert a[..k + 1][..k] == a[..k];
      BelowOwn(p, TableAt(p, root, a[..k + 1]).value, 4 - (k + 1), a[k + 1]);
    }
  }

  lemma {:induction false} CommonPrefix(a: Path, b: Path) returns (k: nat)
    ensures k <= |a| && k <= |b| && a[..k] == b[..k] && (k < |a| && k < |b| ==> a[k] != b[k])
    decreases |a|
  {
    if a == [] || b == [] || a[0] != b[0] {
      k := 0;
    } else {
      k := CommonPrefix(a[1..], b[1..]);
      k := k + 1;
      assert a[..k] == [a[0]] + a[1..][..k - 1] && b[..k] == [b[0]] + b[1..][..k - 1];
    }
  }

  /** In a tree of frames two paths never end at the same frame. */
  lemma {:induction false} HangsOnce(p: Phys, root: nat, a: Path, b: Path, f: nat)
    requires OwnTree(p, root, 4) && Hangs(p, root, a, f) && Hangs(p, root, b, f)
    ensures a == b
  {
    hide OwnTree, Below, Own;
    var k := CommonPrefix(a, b);
    if k < |a| {
      HangsBelow(p, root, a, f, k);
      ClonedTree(p, root, a[..k]);
      BelowOnce(p, TableAt(p, root, a[..k]).value, 4 - k, a[k], f, if k < |b| then b[k] else a[k]);
    }
    if k < |b| {
      HangsBelow(p, root, b, f, k);
      ClonedTree(p, root, b[..k]);
      BelowOnce(p, TableAt(p, root, b[..k]).value, 4 - k, b[k], f, b[k]);
    }
    assert k == |a| ==> a == a[..k];
    assert k == |b| ==> b == b[..k];
  }

  lemma {:induction false} BelowOnce(p: Phys, t: nat, level: nat, i: nat, f: nat, j: nat)
    requires level > 0 && OwnTree(p, t, level) && f in Below(p, t, level, i)
    ensures f != t && (f in Below(p, t, level, j) ==> i == j)
  {
    hide Below;
    if i < j {
      assert Below(p, t, level, i) !! Below(p, t, level, j);
    } else if j < i {
      assert Below(p, t, level, j) !! Below(p, t, level, i);
    }
  }

  /** Each frame in one use: held at one path, or lent at one as far as the bitmap goes, and never both. */
  ghost predicate OneUse(p: Phys, root: nat, used: set<nat>) {
    (forall a: Path, f: nat | Hangs(p, root, a, f) ::
      f in used && f != 0 && (|a| == 4 ==> PRESENT in Flat(p, root, a).bits)) &&
    (forall a: Path, b: Path, f: nat | Hangs(p, root, a, f) && Hangs(p, root, b, f) :: a == b) &&
    (forall a: Path, b: Path, f: nat | Hangs(p, root, a, f) :: !Lent(p, root, b, f)) &&
    LentOnce(p, root, used)
  }

  /** Two paths through the kernel's slots, at least one of them to a page: the kernel maps some frames twice, and some
      of its tables. */
  ghost predicate KernelAlias(a: Path, b: Path) {
    !PrivatePath(a) && !PrivatePath(b) && (|a| == 4 || |b| == 4)
  }

  ghost predicate LentOnce(p: Phys, root: nat, used: set<nat>) {
    (forall a: Path, f: nat | Lent(p, root, a, f) ::
      if |a| <= 3 then f in used else f != 0 && (f in used || f >= BITMAP_SIZE)) &&
    (forall a: Path, b: Path, f: nat | Lent(p, root, a, f) && Lent(p, root, b, f) ::
      a == b || (|a| == |b| == 4 && f >= BITMAP_SIZE) || KernelAlias(a, b))
  }

  lemma {:induction false} LendsOnce(p: Phys, root: nat, used: set<nat>)
    requires SoundMap(p, root, used) && (forall u <- used :: u < BITMAP_SIZE)
    ensures LentOnce(p, root, used)
  {
    hide TableAt, Flat;
    forall a: Path, b: Path, f: nat | Lent(p, root, a, f) && Lent(p, root, b, f)
      ensures a == b || (|a| == |b| == 4 && f >= BITMAP_SIZE) || KernelAlias(a, b)
    {
      if |a| <= 3 {
        assert OnlyPath(p, root, a);
      }
    }
  }

  lemma {:induction false} SoundByUse(p: Phys, root: nat, used: set<nat>)
    requires OneUse(p, root, used) && forall u <- used :: u < BITMAP_SIZE && u < |p|
    ensures SoundMap(p, root, used) && UserMarked(p, root, used) && !Held(p, root, 0)
  {
    hide TableAt, Flat;
    forall a: Path | |a| <= 3 && ValidPath(a) && TableAt(p, root, a).Some?
      ensures TableAt(p, root, a).value in used
    {
      assert Hangs(p, root, a, TableAt(p, root, a).value) || Lent(p, root, a, TableAt(p, root, a).value);
    }
    forall o: Path | |o| == 4 && PrivatePath(o) && USER in Flat(p, root, o).bits
      ensures PRESENT in Flat(p, root, o).bits && Flat(p, root, o).frame in used
    {
      assert Hangs(p, root, o, Flat(p, root, o).frame);
    }
    forall o: Path | |o| == 4 && ValidPath(o) && PRESENT in Flat(p, root, o).bits
      ensures Flat(p, root, o).frame in used || Flat(p, root, o).frame >= BITMAP_SIZE
      ensures Flat(p, root, o).frame != 0
      ensures Hangs(p, root, o, Flat(p, root, o).frame) || Lent(p, root, o, Flat(p, root, o).frame)
    {
      assert Hangs(p, root, o, Flat(p, root, o).frame) || Lent(p, root, o, Flat(p, root, o).frame);
    }
    forall a: Path, b: Path | |a| <= 3 && ValidPath(a) && |b| <= 3 && ValidPath(b) && TableAt(p, root, b).Some? &&
      TableAt(p, root, b) == TableAt(p, root, a)
      ensures b == a
    {
      var f := TableAt(p, root, a).value;
      assert Hangs(p, root, a, f) || Lent(p, root, a, f);
      assert Hangs(p, root, b, f) || Lent(p, root, b, f);
    }
    UsesApart(p, root, used);
  }

  lemma {:induction false} UsesApart(p: Phys, root: nat, used: set<nat>)
    requires OneUse(p, root, used) && forall u <- used :: u < BITMAP_SIZE
    ensures LeavesApart(p, root) && LeavesNoTables(p, root)
  {
    hide TableAt, Flat;
    forall o: Path | |o| == 4 && ValidPath(o) && PRESENT in Flat(p, root, o).bits
      ensures Flat(p, root, o).frame != 0
      ensures Hangs(p, root, o, Flat(p, root, o).frame) || Lent(p, root, o, Flat(p, root, o).frame)
    {
      assert Hangs(p, root, o, Flat(p, root, o).frame) || Lent(p, root, o, Flat(p, root, o).frame);
    }
    forall a: Path, f: nat | |a| <= 3 && ValidPath(a) && TableAt(p, root, a) == Some(f)
      ensures Hangs(p, root, a, f) || Lent(p, root, a, f)
    {
    }
  }

  // ---- The clone ----

  /** Through the kernel's slots both maps reach the same tables. */
  lemma {:induction false} HighWalk(p: Phys, u: set<nat>, src: nat, q: Phys, dst: FrameNo, a: Path)
    requires TablesUsed(p, src, u) && AgreeOn(p, q, u) && HighSlots(p, src, q, dst)
    requires |a| <= 3 && ValidPath(a) && !PrivatePath(a)
    ensures TableAt(q, dst, a) == TableAt(p, src, a)
    decreases |a|
  {
    var r := a[..|a| - 1];
    assert ValidPath(r);
    if |a| == 1 {
      assert r == [] && TableAt(p, src, r) == Some(src) && TableAt(q, dst, r) == Some(dst);
    } else {
      assert r[0] == a[0];
      HighWalk(p, u, src, q, dst, r);
    }
  }

  /** A clone lends what its source lends. */
  lemma {:induction false} CloneLends(p: Phys, u0: set<nat>, src: nat, q: Phys, used: set<nat>, dst: FrameNo, a: Path,
      f: nat)
    requires CloneDone(p, u0, src, q, used, dst) && HighSlots(p, src, q, dst) && TablesUsed(p, src, u0 - {dst})
    ensures Lent(q, dst, a, f) <==> Lent(p, src, a, f)
  {
    hide CloneDone, HighSlots, TableAt;
    if ValidPath(a) && |a| == 4 {
      assert a[..3][0] == a[0];
      if PrivatePath(a) {
        CloneFlat(p, u0, src, q, used, dst, a);
      } else {
        HighPage(p, u0, src, q, used, dst, a);
      }
    } else if ValidPath(a) && |a| <= 3 && !PrivatePath(a) {
      CloneAgrees(p, u0, src, q, used, dst);
      HighWalk(p, u0 - {dst as nat}, src, q, dst, a);
    }
  }

  lemma {:induction false} CloneAgrees(p: Phys, u0: set<nat>, src: nat, q: Phys, used: set<nat>, dst: nat)
    requires CloneDone(p, u0, src, q, used, dst)
    ensures AgreeOn(p, q, u0 - {dst}) && OwnTree(q, dst, 4) && Own(q, dst, 4) !! u0 - {dst}
    ensures used == u0 + Own(q, dst, 4)
  {
  }

  lemma {:induction false} HighPage(p: Phys, u0: set<nat>, src: nat, q: Phys, used: set<nat>, dst: FrameNo, o: Path)
    requires CloneDone(p, u0, src, q, used, dst) && HighSlots(p, src, q, dst) && TablesUsed(p, src, u0 - {dst})
    requires |o| == 4 && ValidPath(o) && !PrivatePath(o)
    ensures Flat(q, dst, o) == Flat(p, src, o)
  {
    assert ValidPath(o[..3]) && o[..3][0] == o[0];
    CloneAgrees(p, u0, src, q, used, dst);
    hide CloneDone, Own, OwnTree;
    HighWalk(p, u0 - {dst as nat}, src, q, dst, o[..3]);
  }

  lemma {:induction false} CloneHangs(p: Phys, u0: set<nat>, src: nat, q: Phys, used: set<nat>, dst: nat, a: Path,
      f: nat)
    requires CloneDone(p, u0, src, q, used, dst) && Hangs(q, dst, a, f)
    ensures f in used && f !in u0 - {dst} && (|a| == 4 ==> PRESENT in Flat(q, dst, a).bits)
  {
    CloneAgrees(p, u0, src, q, used, dst);
    assert Held(q, dst, f);
    OwnIsHeld(q, dst, f);
    hide CloneDone, Own, OwnTree, TableAt;
    if |a| == 4 {
      CloneFlat(p, u0, src, q, used, dst, a);
    }
  }

  lemma {:induction false} CloneTop(p: Phys, u0: set<nat>, src: nat, q: Phys, used: set<nat>, dst: FrameNo)
    requires CloneDone(p, u0, src, q, used, dst) && HighSlots(p, src, q, dst) && TopPlain(p, src)
    ensures TopPlain(q, dst)
  {
    forall i | 0 <= i < 511
      ensures LARGE !in q[dst][i].bits
    {
      if i < PRIVATE_SLOTS {
        assert ClonedWord(p, p[src][i], q, q[dst][i], 4);
      }
    }
  }

  /** The clone of a process's map is a process's map; what it holds was free, and what it shares its source shares. */
  lemma {:induction false} CloneIsProcess(p: Phys, u0: set<nat>, src: nat, q: Phys, used: set<nat>, dst: FrameNo)
    requires CloneDone(p, u0, src, q, used, dst) && HighSlots(p, src, q, dst)
    requires ProcessMap(p, src, u0 - {dst}) && 0 in u0 - {dst} && forall u <- used :: u < BITMAP_SIZE && u < |q|
    ensures ProcessMap(q, dst, used)
    ensures forall f: nat | Held(q, dst, f) :: f in used && f !in u0 - {dst}
    ensures forall f: nat :: Shared(q, dst, f) <==> Shared(p, src, f)
  {
    CloneTop(p, u0, src, q, used, dst);
    CloneAgrees(p, u0, src, q, used, dst);
    LendsOnce(p, src, u0 - {dst as nat});
    assert TablesUsed(p, src, u0 - {dst as nat});
    hide CloneDone, HighSlots, TopPlain, Own, OwnTree, TableAt, Flat, PrivatePath, SoundMap, UserMarked;
    forall a: Path, f: nat
      ensures Lent(q, dst, a, f) <==> Lent(p, src, a, f)
      ensures Hangs(q, dst, a, f) ==> f in used && f !in u0 - {dst} && (|a| == 4 ==> PRESENT in Flat(q, dst, a).bits)
    {
      CloneLends(p, u0, src, q, used, dst, a, f);
      if Hangs(q, dst, a, f) {
        CloneHangs(p, u0, src, q, used, dst, a, f);
      }
    }
    forall a: Path, b: Path, f: nat | Hangs(q, dst, a, f) && Hangs(q, dst, b, f)
      ensures a == b
    {
      HangsOnce(q, dst, a, b, f);
    }
    SoundByUse(q, dst, used);
  }
}
