/**
 A clone translates every address as its source does, large pages included, but that user pages are copies.
 */
module CloneTranslations {
  import opened Options
  import opened PhysicalMemory
  import opened OwnedFrames
  import opened FlatMap
  import opened Translations
  import opened CloneRelation
  import opened PageMapCloning
  import opened CloneTheorems
  import opened CloneViews
  import opened BootMap

  /** Whatever in a table is no table itself is repeated, a large page or an empty word. */
  lemma {:induction false} CloneRepeats(p: Phys, u0: set<nat>, src: nat, q: Phys, used: set<nat>, dst: nat, a: Path,
      t: nat, i: nat)
    requires CloneDone(p, u0, src, q, used, dst) && |a| <= 2 && PrivatePath(a) && TableAt(p, src, a) == Some(t)
    requires i < (if a == [] then PRIVATE_SLOTS else ENTRIES) && t < |p| && !IsTable(p[t][i])
    ensures TableAt(q, dst, a).Some? && TableAt(q, dst, a).value < |q| && q[TableAt(q, dst, a).value][i] == p[t][i]
  {
    ClonedWalk(p, src, q, dst, a);
    var t' := TableAt(q, dst, a).value;
    assert ClonedWord(p, p[t][i], q, q[t'][i], 4 - |a|);
  }

  /** The words a walk meets: tables are new and let user code through, user pages are copied, the rest is repeated. */
  lemma {:induction false} CloneWords(p: Phys, u0: set<nat>, src: nat, q: Phys, used: set<nat>, dst: nat, page: Path,
      k: nat)
    requires CloneDone(p, u0, src, q, used, dst) && |page| == 4 && PrivatePath(page) && k < 4
    ensures TableAt(q, dst, page[..k]).Some? <==> TableAt(p, src, page[..k]).Some?
    ensures var w, w' := WordOn(p, src, page, k), WordOn(q, dst, page, k);
      if k < 3 && IsTable(w) then IsTable(w') && w'.bits == CLONE_BITS
      else if k == 3 && USER in w.bits then w'.bits == CLONE_BITS
      else w' == w
  {
    assert PrivatePath(page[..k]);
    ClonedWalk(p, src, q, dst, page[..k]);
    if TableAt(p, src, page[..k]).Some? {
      var t, t' := TableAt(p, src, page[..k]).value, TableAt(q, dst, page[..k]).value;
      assert ClonedWord(p, p[t][page[k]], q, q[t'][page[k]], 4 - k);
    }
  }

  lemma {:induction false} CloneEnd(p: Phys, u0: set<nat>, src: nat, q: Phys, used: set<nat>, dst: nat, page: Path,
      n: nat)
    requires CloneDone(p, u0, src, q, used, dst) && |page| == 4 && PrivatePath(page) && n < 4 && EndsAt(p, src, page, n)
    ensures EndsAt(q, dst, page, n)
    ensures forall j | 0 <= j < n :: USER in WordOn(q, dst, page, j).bits
  {
    hide CloneDone, WordOn, TableAt;
    CloneWords(p, u0, src, q, used, dst, page, n);
    forall j | 0 <= j < n
      ensures USER in WordOn(q, dst, page, j).bits
    {
      AroundEnd(p, src, page, n, j);
      CloneWords(p, u0, src, q, used, dst, page, j);
    }
  }

  /** Every private address: a user page of 4 KiB is copied to a frame that was free, with the rights of a clone; what
      has no page has none in the clone; any other page, of whatever size, is the same. */
  lemma {:induction false} CloneTranslates(p: Phys, u0: set<nat>, src: nat, q: Phys, used: set<nat>, dst: nat,
      page: Path)
    requires CloneDone(p, u0, src, q, used, dst) && |p| == |q| == FRAME_LIMIT && |page| == 4 && PrivatePath(page)
    ensures var v, v' := Translate(p, src, page, 0), Translate(q, dst, page, 0);
      if v.PageOf? && v.depth == 3 && USER in v.word.bits then
        v'.PageOf? && v'.depth == 3 && v'.word.bits == CLONE_BITS && q[v'.word.frame] == p[v.word.frame] &&
        v'.word.frame in used && v'.word.frame !in u0 - {dst}
      else v' == v
  {
    hide CloneDone, Translate;
    assert page[..0] == [];
    Roots(p, u0, src, q, used, dst);
    var n := WalkEnds(p, src, page, 0);
    CloneEnd(p, u0, src, q, used, dst, page, n);
    TranslateEnds(p, src, page, n);
    TranslateEnds(q, dst, page, n);
    CloneWords(p, u0, src, q, used, dst, page, n);
    CloneFlat(p, u0, src, q, used, dst, page);
    hide EndsAt;
  }

  /** Through a clone, memmgr_check_user lets pass exactly the pages, of whatever size, whose own word lets user code
      through, whatever the source's tables do. */
  lemma {:induction false} CloneChecksUser(p: Phys, u0: set<nat>, src: nat, q: Phys, used: set<nat>, dst: nat,
      page: Path)
    requires CloneDone(p, u0, src, q, used, dst) && |p| == |q| == FRAME_LIMIT && |page| == 4 && PrivatePath(page)
    ensures UserPath(q, dst, page, 0) <==>
      Translate(p, src, page, 0).PageOf? && USER in Translate(p, src, page, 0).word.bits
  {
    hide CloneDone, Translate, UserPath;
    assert page[..0] == [];
    Roots(p, u0, src, q, used, dst);
    var n := WalkEnds(p, src, page, 0);
    CloneEnd(p, u0, src, q, used, dst, page, n);
    TranslateEnds(p, src, page, n);
    ChecksEveryWord(q, dst, page, n);
    CloneWords(p, u0, src, q, used, dst, page, n);
    hide EndsAt;
  }

  lemma {:induction false} Roots(p: Phys, u0: set<nat>, src: nat, q: Phys, used: set<nat>, dst: nat)
    requires CloneDone(p, u0, src, q, used, dst)
    ensures src < |p| == |q| && dst < |p|
  {
  }

  /** Through the kernel's slots, every address. */
  lemma {:induction false} CloneSharesKernel(p: Phys, u0: set<nat>, src: nat, q: Phys, used: set<nat>, dst: FrameNo,
      page: Path)
    requires CloneDone(p, u0, src, q, used, dst) && HighSlots(p, src, q, dst) && TablesUsed(p, src, u0 - {dst})
    requires |p| == |q| == FRAME_LIMIT && |page| == 4 && ValidPath(page) && !PrivatePath(page)
    ensures Translate(q, dst, page, 0) == Translate(p, src, page, 0)
    ensures UserPath(q, dst, page, 0) <==> UserPath(p, src, page, 0)
  {
    Roots(p, u0, src, q, used, dst);
    CloneAgrees(p, u0, src, q, used, dst);
    hide CloneDone, Translate, UserPath, Own, OwnTree;
    forall k | 0 <= k < 4
      ensures WordOn(q, dst, page, k) == WordOn(p, src, page, k)
    {
      assert ValidPath(page[..k]);
      if k > 0 {
        assert page[..k][0] == page[0];
        HighWalk(p, u0 - {dst as nat}, src, q, dst, page[..k]);
      }
    }
    SameWords(p, src, q, dst, page);
  }

  // ---- The map the kernel boots with ----

  /** The first megabytes are two large pages, which the kernel keeps to itself. */
  lemma {:induction false} BootTranslates(p: Phys, image: nat, identity: nat, o: Path)
    requires BootMemory(p, image, identity) && |o| == 4 && PrivatePath(o)
    ensures Translate(p, BOOT_ROOT, o, 0) ==
      if o[0] == 0 && o[1] == 0 && o[2] < 2 then PageOf(2, LargeEntry(o[2] * 0x200)) else Unmapped
  {
  }

  /** No page of it passes the user check, the one at address 0 as little as any other. */
  lemma {:induction false} BootKeepsOut(p: Phys, image: nat, identity: nat, o: Path)
    requires BootMemory(p, image, identity) && |o| == 4 && ValidPath(o)
    ensures !UserPath(p, BOOT_ROOT, o, 0)
  {
  }

  /** Nor does one pass through a map cloned from it: a null pointer of a process is refused. */
  lemma {:induction false} NullRefused(p: Phys, image: nat, identity: nat, u0: set<nat>, q: Phys, used: set<nat>,
      dst: nat)
    requires BootMemory(p, image, identity) && CloneDone(p, u0, BOOT_ROOT, q, used, dst) && |q| == FRAME_LIMIT
    ensures Indices(0) == [0, 0, 0, 0] && dst < |q| && !UserPath(q, dst, [0, 0, 0, 0], 0)
    ensures Translate(q, dst, [0, 0, 0, 0], 0) == PageOf(2, LargeEntry(0))
  {
    hide CloneDone;
    Roots(p, u0, BOOT_ROOT, q, used, dst);
    var page := [0, 0, 0, 0];
    assert PrivatePath(page);
    BootTranslates(p, image, identity, page);
    CloneTranslates(p, u0, BOOT_ROOT, q, used, dst, page);
    CloneChecksUser(p, u0, BOOT_ROOT, q, used, dst, page);
  }
}
