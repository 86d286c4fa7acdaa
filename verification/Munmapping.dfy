/**
 munmap: which pages it takes from a process, and when those are the pages it is asked to take.
 */
module Munmapping {
  import opened Options
  import opened PhysicalMemory
  import opened FlatMap
  import opened MemoryManagers
  import opened MapViews
  import opened ProcessMaps
  import opened MapRuns

  /** How many pages a length covers. */
  function MunmapPages(len: nat): (n: nat)
    ensures forall i: nat :: i < n <==> 4096 * i < len
  {
    len / 4096 + if len % 4096 != 0 then 1 else 0
  }

  /** The i-th page after that of an address. */
  function PageAfter(address: nat, i: nat): Path {
    Indices(address - address % 4096 + 0x1000 * i)
  }

  lemma {:induction false} PagesPrivate(address: nat, i: nat, j: nat)
    requires address + 0x1000 * i < PRIVATE_SLOTS * 0x80_0000_0000
    requires address + 0x1000 * j < PRIVATE_SLOTS * 0x80_0000_0000
    ensures |PageAfter(address, i)| == 4 && PrivatePath(PageAfter(address, i))
    ensures PageAfter(address, i) == PageAfter(address, j) <==> i == j
  {
    hide Indices;
    var base := address - address % 4096;
    UserAddress(base + 0x1000 * i);
    UserAddress(base + 0x1000 * j);
    assert base == base / 0x1000 * 0x1000;
    PageNumberAfter(base / 0x1000, i);
    PageNumberAfter(base / 0x1000, j);
  }

  lemma {:induction false} PageNumberAfter(n: nat, i: nat)
    ensures (n * 0x1000 + 0x1000 * i) / 0x1000 == n + i
  {
  }

  /** Below the kernel's slots, the path of an address is private and gives its page number. */
  lemma {:induction false} UserAddress(a: nat)
    requires a < PRIVATE_SLOTS * 0x80_0000_0000
    ensures |Indices(a)| == 4 && PrivatePath(Indices(a)) && PageNumber(Indices(a)) == a / 0x1000
  {
    IndexDigits(a);
    FirstIndex(a);
    hide Indices;
    assert a / 0x1000 < 0x10_0000_0000;
  }

  lemma {:induction false} FirstIndex(a: nat)
    requires a < PRIVATE_SLOTS * 0x80_0000_0000
    ensures Indices(a)[0] == a / 0x80_0000_0000 < PRIVATE_SLOTS
  {
  }

  /** The page passes the user check, and no large page ends the walk to it. */
  predicate Unmappable(p: Phys, root: nat, o: Path)
    requires |o| == 4 && ValidPath(o)
  {
    |p| == FRAME_LIMIT && root < |p| && TableAt(p, root, o[..3]).Some? && UserPath(p, root, o, 0)
  }

  lemma {:induction false} UnmappableWords(p: Phys, root: nat, o: Path)
    requires |p| == FRAME_LIMIT && root < |p| && |o| == 4 && ValidPath(o)
    ensures Unmappable(p, root, o) <==>
      TableAt(p, root, o[..3]).Some? && USER in Flat(p, root, o).bits &&
      forall k | 0 <= k < 3 :: TableAt(p, root, o[..k]).Some? && TableAt(p, root, o[..k]).value < |p| &&
                               USER in p[TableAt(p, root, o[..k]).value][o[k]].bits
  {
    if TableAt(p, root, o[..3]).Some? {
      UserPathWords(p, root, o);
    }
  }

  /** Unmapping one page takes it if it can be taken, and changes neither another translation nor what can be taken. */
  lemma {:induction false} UnmapExactly(s: Maps, root: nat, page: Path, t: Maps)
    requires AllApart(s) && Happens(s, Unmap(root, page), t)
    ensures forall o: Path | |o| == 4 && ValidPath(o) ::
      Flat(t.phys, root, o) == if o == page && Unmappable(s.phys, root, page) then ZERO_WORD else Flat(s.phys, root, o)
    ensures forall o: Path | |o| == 4 && ValidPath(o) && o != page ::
      Unmappable(t.phys, root, o) <==> Unmappable(s.phys, root, o)
  {
    if UserPath(s.phys, root, page, 0) {
      UnmapCases(s, root, page);
      if DeleteTarget(s.phys, root, page).Some? {
        UnmapView(s, root, page);
        forall o: Path | |o| == 4 && ValidPath(o) && o != page
          ensures Unmappable(t.phys, root, o) <==> Unmappable(s.phys, root, o)
        {
          UnmapLeaves(s, root, page, o);
        }
      } else if TableAt(s.phys, root, page[..3]).Some? {
        DeleteTargetOfMapped(s.phys, root, page);
      }
    }
  }

  lemma {:induction false} UnmapLeaves(s: Maps, root: nat, page: Path, o: Path)
    requires AllApart(s) && root in s.roots && |page| == 4 && PrivatePath(page) && root < |s.phys|
    requires TableAt(s.phys, root, page[..3]).Some? && |o| == 4 && ValidPath(o) && o != page
    ensures Unmappable(Deleted(s.phys, root, page), root, o) <==> Unmappable(s.phys, root, o)
  {
    hide TableAt, Flat, Unmappable, DeleteTarget, Deleted, ProcessMap, Apart;
    var p, q := s.phys, Deleted(s.phys, root, page);
    UnmappableWords(p, root, o);
    UnmappableWords(q, root, o);
    UnmapFlat(s, root, page, o);
    forall k | 0 <= k < 3
      ensures TableAt(q, root, o[..k]) == TableAt(p, root, o[..k])
      ensures TableAt(p, root, o[..k]).Some? && TableAt(p, root, o[..k]).value < |p| ==>
        q[TableAt(p, root, o[..k]).value] == p[TableAt(p, root, o[..k]).value]
    {
      UnmapWalk(s, root, page, o, k);
    }
  }

  lemma {:induction false} UnmapFlat(s: Maps, root: nat, page: Path, o: Path)
    requires AllApart(s) && root in s.roots && |page| == 4 && PrivatePath(page) && root < |s.phys|
    requires TableAt(s.phys, root, page[..3]).Some? && |o| == 4 && ValidPath(o) && o != page
    ensures var q := Deleted(s.phys, root, page);
      TableAt(q, root, o[..3]) == TableAt(s.phys, root, o[..3]) && Flat(q, root, o) == Flat(s.phys, root, o)
  {
    assert ValidPath(o[..3]);
    UnmapView(s, root, page);
  }

  lemma {:induction false} UnmapWalk(s: Maps, root: nat, page: Path, o: Path, k: nat)
    requires AllApart(s) && root in s.roots && |page| == 4 && PrivatePath(page) && root < |s.phys|
    requires TableAt(s.phys, root, page[..3]).Some? && |o| == 4 && ValidPath(o) && k < 3
    ensures var p, q := s.phys, Deleted(s.phys, root, page);
      TableAt(q, root, o[..k]) == TableAt(p, root, o[..k]) &&
      (TableAt(p, root, o[..k]).Some? && TableAt(p, root, o[..k]).value < |p| ==>
         q[TableAt(p, root, o[..k]).value] == p[TableAt(p, root, o[..k]).value])
  {
    assert ValidPath(o[..k]) && ProcessMap(s.phys, root, s.used);
    UnmapView(s, root, page);
    DeleteTargetOfMapped(s.phys, root, page);
    assert OnlyPath(s.phys, root, page[..3]) && |o[..k]| != |page[..3]|;
  }

  /** The pages from the i-th to the one before the j-th after an address have lost their translation if they could be
      taken, and no other page has. */
  ghost predicate Lost(p: Phys, q: Phys, root: nat, address: nat, i: nat, j: nat) {
    forall o: Path | |o| == 4 && ValidPath(o) ::
      Flat(q, root, o) == if Within(address, i, j, o) && Unmappable(p, root, o) then ZERO_WORD else Flat(p, root, o)
  }

  ghost predicate Within(address: nat, i: nat, j: nat, o: Path) {
    exists k: nat :: i <= k < j && PageAfter(address, k) == o
  }

  /** munmap, for user addresses.  It counts its pages from 1. */
  method Munmap(m: MemoryManager, ghost roots: set<nat>, root: nat, address: nat, len: nat)
    requires m.Valid() && AllApart(Maps(m.phys, m.Used(), roots)) && root in roots
    requires address + len + 0x2000 <= PRIVATE_SLOTS * 0x80_0000_0000
    modifies m, m.memoryMap
    ensures m.Valid() && AllApart(Maps(m.phys, m.Used(), roots))
    ensures Lost(old(m.phys), m.phys, root, address, 1, MunmapPages(len) + 1)
  {
    hide AllApart, Happens, Flat, PageAfter, Unmappable;
    ghost var p := m.phys;
    var count := MunmapPages(len);
    assert forall i: nat :: i < count <==> 4096 * i < len;
    hide MunmapPages;
    for i := 1 to count + 1
      invariant m.Valid() && AllApart(Maps(m.phys, m.Used(), roots))
      invariant Lost(p, m.phys, root, address, 1, i)
      invariant forall o: Path | |o| == 4 && ValidPath(o) && !Within(address, 1, i, o) ::
        Unmappable(m.phys, root, o) <==> Unmappable(p, root, o)
    {
      assert i - 1 < count && 4096 * (i - 1) < len;
      PagesPrivate(address, i, i);
      ghost var s, page := Maps(m.phys, m.Used(), roots), PageAfter(address, i);
      UnmapFor(m, roots, root, PageAfter(address, i));
      UnmapExactly(s, root, page, Maps(m.phys, m.Used(), roots));
      NotYet(address, i);
      forall o: Path
        ensures Within(address, 1, i + 1, o) <==> Within(address, 1, i, o) || o == page
      {
        WithinNext(address, i, o);
      }
    }
  }

  lemma {:induction false} WithinNext(address: nat, i: nat, o: Path)
    requires i >= 1
    ensures Within(address, 1, i + 1, o) <==> Within(address, 1, i, o) || o == PageAfter(address, i)
  {
  }

  lemma {:induction false} NotYet(address: nat, i: nat)
    requires i >= 1 && address + 0x1000 * i < PRIVATE_SLOTS * 0x80_0000_0000
    ensures !Within(address, 1, i, PageAfter(address, i)) && !Within(address, 1, i + 1, PageAfter(address, 0))
  {
    forall k | 1 <= k <= i
      ensures k < i ==> PageAfter(address, k) != PageAfter(address, i)
      ensures PageAfter(address, k) != PageAfter(address, 0)
    {
      PagesPrivate(address, k, i);
      PagesPrivate(address, k, 0);
    }
  }

  /** So it takes the pages it is asked for, and no others, exactly when there are none, or neither the first of them
      nor the page past the end can be taken. */
  lemma {:induction false} MunmapRight(p: Phys, q: Phys, root: nat, address: nat, n: nat)
    requires Lost(p, q, root, address, 1, n + 1) && address + 0x1000 * n < PRIVATE_SLOTS * 0x80_0000_0000
    ensures |PageAfter(address, 0)| == |PageAfter(address, n)| == 4
    ensures PrivatePath(PageAfter(address, 0)) && PrivatePath(PageAfter(address, n))
    ensures Lost(p, q, root, address, 0, n) <==>
            n == 0 || (!Unmappable(p, root, PageAfter(address, 0)) && !Unmappable(p, root, PageAfter(address, n)))
  {
    PagesPrivate(address, 0, n);
    PagesPrivate(address, n, n);
    var first, past := PageAfter(address, 0), PageAfter(address, n);
    if Unmappable(p, root, first) {
      UnmappableShows(p, root, first);
    }
    if Unmappable(p, root, past) {
      UnmappableShows(p, root, past);
    }
    hide Flat, Unmappable;
    Ends(address, n);
    forall o: Path
      ensures Within(address, 1, n + 1, o) <==> (o == past && n > 0) || Within(address, 1, n, o)
      ensures Within(address, 0, n, o) <==> (o == first && n > 0) || Within(address, 1, n, o)
    {
    }
    hide Within, PageAfter;
  }

  lemma {:induction false} UnmappableShows(p: Phys, root: nat, o: Path)
    requires |o| == 4 && ValidPath(o) && Unmappable(p, root, o)
    ensures Flat(p, root, o) != ZERO_WORD
  {
    UnmappableWords(p, root, o);
  }

  lemma {:induction false} Ends(address: nat, n: nat)
    requires address + 0x1000 * n < PRIVATE_SLOTS * 0x80_0000_0000
    ensures !Within(address, 1, n + 1, PageAfter(address, 0)) && !Within(address, 0, n, PageAfter(address, n))
  {
    forall k | 0 <= k <= n
      ensures k < n ==> PageAfter(address, k) != PageAfter(address, n)
      ensures 1 <= k ==> PageAfter(address, k) != PageAfter(address, 0)
    {
      PagesPrivate(address, k, n);
      PagesPrivate(address, k, 0);
    }
  }
}
