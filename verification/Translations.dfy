/**
 What an address comes to, large pages included: the words its walk meets, and the one at which it ends.
 */
module Translations {
  import opened Options
  import opened PhysicalMemory
  import opened FlatMap

  /** The word in the table at depth k on the way to a page, zero where no table is. */
  function WordOn(p: Phys, root: nat, page: Path, k: nat): Word
    requires |page| == 4 && k < 4 && page[k] < ENTRIES
  {
    match TableAt(p, root, page[..k])
    case None => ZERO_WORD
    case Some(t) => if t < |p| then p[t][page[k]] else ZERO_WORD
  }

  /** The walk to the page ends at depth k: at the last level, an empty word or a large page. */
  predicate EndsAt(p: Phys, root: nat, page: Path, k: nat)
    requires |page| == 4 && ValidPath(page) && k < 4
  {
    TableAt(p, root, page[..k]).Some? && (k == 3 || !IsTable(WordOn(p, root, page, k)))
  }

  datatype Translation = Unmapped | PageOf(depth: nat, word: Word)

  /** The page an address lies in, by walking down: of 4 KiB at depth 3, of 2 MiB at depth 2, of 1 GiB at depth 1. */
  function Translate(p: Phys, t: nat, page: Path, k: nat): Translation
    requires |p| == FRAME_LIMIT && |page| == 4 && ValidPath(page) && t < |p| && k < 4
    decreases 4 - k
  {
    var w := p[t][page[k]];
    if w == ZERO_WORD then Unmapped
    else if k == 3 || LARGE in w.bits then PageOf(k, w)
    else Translate(p, w.frame, page, k + 1)
  }

  lemma {:induction false} StepDown(p: Phys, root: nat, page: Path, k: nat)
    requires |page| == 4 && ValidPath(page) && k < 3
    ensures ValidPath(page[..k]) && ValidPath(page[..k + 1])
    ensures TableAt(p, root, page[..k + 1]) ==
      if TableAt(p, root, page[..k]).Some? && IsTable(WordOn(p, root, page, k))
      then Some(WordOn(p, root, page, k).frame)
      else None
  {
    assert page[..k + 1][..k] == page[..k];
  }

  lemma {:induction false} WalkEnds(p: Phys, root: nat, page: Path, k: nat) returns (n: nat)
    requires |page| == 4 && ValidPath(page) && k < 4 && TableAt(p, root, page[..k]).Some?
    ensures k <= n < 4 && EndsAt(p, root, page, n)
    decreases 4 - k
  {
    if k == 3 || !IsTable(WordOn(p, root, page, k)) {
      n := k;
    } else {
      StepDown(p, root, page, k);
      n := WalkEnds(p, root, page, k + 1);
    }
  }

  /** Walking down and naming the tables by their paths come to the same: a page is mapped by the word its walk ends
      at, if that is not empty. */
  lemma {:induction false} TranslateEnds(p: Phys, root: nat, page: Path, n: nat)
    requires |p| == FRAME_LIMIT && root < |p| && |page| == 4 && ValidPath(page) && n < 4 && EndsAt(p, root, page, n)
    ensures Translate(p, root, page, 0) ==
      if WordOn(p, root, page, n) == ZERO_WORD then Unmapped else PageOf(n, WordOn(p, root, page, n))
  {
    assert page[..0] == [];
    TranslateFrom(p, root, page, 0, n);
  }

  lemma {:induction false} TranslateFrom(p: Phys, root: nat, page: Path, k: nat, n: nat)
    requires |p| == FRAME_LIMIT && root < |p| && |page| == 4 && ValidPath(page) && k <= n < 4
    requires EndsAt(p, root, page, n) && TableAt(p, root, page[..k]).Some? && TableAt(p, root, page[..k]).value < |p|
    ensures Translate(p, TableAt(p, root, page[..k]).value, page, k) ==
      if WordOn(p, root, page, n) == ZERO_WORD then Unmapped else PageOf(n, WordOn(p, root, page, n))
    decreases n - k
  {
    if k < n {
      TablesAbove(p, root, page, k + 1, n);
      StepDown(p, root, page, k);
      TranslateFrom(p, root, page, k + 1, n);
    }
  }

  /** The tables above a table on the way. */
  lemma {:induction false} TablesAbove(p: Phys, root: nat, page: Path, k: nat, n: nat)
    requires |page| == 4 && ValidPath(page) && k <= n < 4 && TableAt(p, root, page[..n]).Some?
    ensures TableAt(p, root, page[..k]).Some?
    decreases n - k
  {
    if k < n {
      StepDown(p, root, page, n - 1);
      TablesAbove(p, root, page, k, n - 1);
    }
  }

  /** What memmgr_check_user lets pass: exactly the pages whose walk meets the user bit in every word, down to the one
      it ends at.  An empty word has no bits. */
  lemma {:induction false} ChecksEveryWord(p: Phys, root: nat, page: Path, n: nat)
    requires |p| == FRAME_LIMIT && root < |p| && |page| == 4 && ValidPath(page) && n < 4 && EndsAt(p, root, page, n)
    ensures UserPath(p, root, page, 0) <==> forall j | 0 <= j <= n :: USER in WordOn(p, root, page, j).bits
  {
    assert page[..0] == [];
    CheckFrom(p, root, page, 0, n);
  }

  lemma {:induction false} CheckFrom(p: Phys, root: nat, page: Path, k: nat, n: nat)
    requires |p| == FRAME_LIMIT && root < |p| && |page| == 4 && ValidPath(page) && k <= n < 4
    requires EndsAt(p, root, page, n) && TableAt(p, root, page[..k]).Some? && TableAt(p, root, page[..k]).value < |p|
    ensures UserPath(p, TableAt(p, root, page[..k]).value, page, k) <==>
      forall j | k <= j <= n :: USER in WordOn(p, root, page, j).bits
    decreases n - k
  {
    if k < n {
      TablesAbove(p, root, page, k + 1, n);
      StepDown(p, root, page, k);
      CheckFrom(p, root, page, k + 1, n);
    } else {
      EndOfCheck(p, root, page, n);
    }
  }

  lemma {:induction false} EndOfCheck(p: Phys, root: nat, page: Path, n: nat)
    requires |p| == FRAME_LIMIT && root < |p| && |page| == 4 && ValidPath(page) && n < 4 && EndsAt(p, root, page, n)
    requires TableAt(p, root, page[..n]).value < |p|
    ensures UserPath(p, TableAt(p, root, page[..n]).value, page, n) <==> USER in WordOn(p, root, page, n).bits
  {
  }

  /** So a large page passes exactly if the user bit is in its word and in those above it. */
  lemma {:induction false} ChecksLargePage(p: Phys, root: nat, page: Path, n: nat, t: nat)
    requires |p| == FRAME_LIMIT && root < |p| && |page| == 4 && ValidPath(page) && n < 3 && t < |p|
    requires TableAt(p, root, page[..n]) == Some(t) && LARGE in p[t][page[n]].bits
    ensures UserPath(p, root, page, 0) <==> forall j | 0 <= j <= n :: USER in WordOn(p, root, page, j).bits
  {
    ChecksEveryWord(p, root, page, n);
  }

  /** And what has no page never passes. */
  lemma {:induction false} ChecksMapped(p: Phys, root: nat, page: Path)
    requires |p| == FRAME_LIMIT && root < |p| && |page| == 4 && ValidPath(page)
    ensures Translate(p, root, page, 0).Unmapped? ==> !UserPath(p, root, page, 0)
    ensures UserPath(p, root, page, 0) ==> USER in Translate(p, root, page, 0).word.bits
  {
    assert page[..0] == [];
    var n := WalkEnds(p, root, page, 0);
    TranslateEnds(p, root, page, n);
    ChecksEveryWord(p, root, page, n);
    hide UserPath, Translate;
    assert USER in WordOn(p, root, page, n).bits ==> WordOn(p, root, page, n) != ZERO_WORD;
  }

  /** An empty word stops the check wherever the walk meets it. */
  lemma {:induction false} ChecksNothing(p: Phys, root: nat, page: Path, n: nat, t: nat)
    requires |p| == FRAME_LIMIT && root < |p| && |page| == 4 && ValidPath(page) && n < 4 && t < |p|
    requires TableAt(p, root, page[..n]) == Some(t) && p[t][page[n]] == ZERO_WORD
    ensures !UserPath(p, root, page, 0)
  {
    ChecksEveryWord(p, root, page, n);
    assert USER !in WordOn(p, root, page, n).bits;
  }

  // ---- Stores, as walks see them ----

  /** The walk meets the same word, or an empty one on the way has been filled, with these flags. */
  ghost predicate Fills(p: Phys, q: Phys, root: nat, way: Path, flags: set<nat>, o: Path, k: nat)
    requires |o| == 4 && ValidPath(o) && k < 4
  {
    WordOn(q, root, o, k) == WordOn(p, root, o, k) ||
    (o[..k + 1] <= way && WordOn(p, root, o, k) == ZERO_WORD &&
     WordOn(q, root, o, k).bits == flags + {PRESENT, WRITABLE})
  }

  /** No walk meets another word than before, but where an empty one on the way was filled. */
  ghost predicate OnlyFills(p: Phys, q: Phys, root: nat, way: Path, flags: set<nat>) {
    forall o: Path, k: nat | |o| == 4 && ValidPath(o) && k < 4 :: Fills(p, q, root, way, flags, o, k)
  }

  lemma {:induction false} FillsNothing(p: Phys, root: nat, way: Path, flags: set<nat>)
    ensures OnlyFills(p, p, root, way, flags)
  {
  }

  lemma {:induction false} FillsFurther(p: Phys, q: Phys, r: Phys, root: nat, a: Path, b: Path, way: Path,
      flags: set<nat>)
    requires OnlyFills(p, q, root, a, flags) && OnlyFills(q, r, root, b, flags) && a <= way && b <= way
    ensures OnlyFills(p, r, root, way, flags)
  {
    hide WordOn;
    forall o: Path, k: nat | |o| == 4 && ValidPath(o) && k < 4
      ensures Fills(p, r, root, way, flags, o, k)
    {
      assert Fills(p, q, root, a, flags, o, k) && Fills(q, r, root, b, flags, o, k);
      assert WordOn(q, root, o, k).bits == flags + {PRESENT, WRITABLE} ==> WordOn(q, root, o, k) != ZERO_WORD;
    }
  }

  lemma {:induction false} FillsDown(p: Phys, q: Phys, r: Phys, root: nat, page: Path, k: nat, flags: set<nat>)
    requires k < |page| && OnlyFills(p, q, root, page[..k], flags) && OnlyFills(q, r, root, page[..k + 1], flags)
    ensures OnlyFills(p, r, root, page[..k + 1], flags)
  {
    FillsFurther(p, q, r, root, page[..k], page[..k + 1], page[..k + 1], flags);
  }

  /** What a walk meets after a store into slot `i` of the table at `a`, which may have hung a new empty table there. */
  lemma {:induction false} StoreWords(p: Phys, q: Phys, root: nat, used: set<nat>, a: Path, i: nat, w: Word, o: Path,
      k: nat)
    requires TreeMap(p, root, used) && |a| <= 3 && ValidPath(a) && TableAt(p, root, a).Some?
    requires StoredAt(p, q, used, TableAt(p, root, a).value, i, w)
    requires |o| == 4 && ValidPath(o) && k < 4
    requires TableAt(q, root, o[..k]) == TableAt(p, root, o[..k]) ||
      (TableAt(p, root, o[..k]).None? && TableAt(q, root, o[..k]).value < |q| &&
       q[TableAt(q, root, o[..k]).value] == ZERO_PAGE)
    ensures WordOn(q, root, o, k) == if o[..k] == a && o[k] == i then w else WordOn(p, root, o, k)
  {
    hide TableAt;
    assert ValidPath(o[..k]) && OnlyPath(p, root, a);
    if TableAt(p, root, o[..k]).Some? {
      assert TableAt(p, root, o[..k]).value in used;
    }
  }

  lemma {:induction false} NewTableWords(p: Phys, q: Phys, root: nat, used: set<nat>, a: Path, i: nat, w: Word,
      flags: set<nat>)
    requires TreeMap(p, root, used) && |a| <= 2 && ValidPath(a + [i]) && TableAt(p, root, a).Some?
    requires StoredAt(p, q, used, TableAt(p, root, a).value, i, w)
    requires p[TableAt(p, root, a).value][i] == ZERO_WORD && IsTable(w) && w.bits == flags + {PRESENT, WRITABLE}
    requires w.frame !in used && w.frame < |p| && q[w.frame] == ZERO_PAGE
    ensures OnlyFills(p, q, root, a + [i], flags)
  {
    hide TableAt, TreeMap;
    NewTable(p, q, root, used, a, i, w);
    assert TableAt(p, root, a + [i]) == None by {
      EmptyEndsWalk(p, root, a, i);
    }
    forall o: Path, k: nat | |o| == 4 && ValidPath(o) && k < 4
      ensures Fills(p, q, root, a + [i], flags, o, k)
    {
      assert ValidPath(o[..k]) && o[..k + 1] == o[..k] + [o[k]];
      assert ValidPath(a) by { assert forall k | 0 <= k < |a| :: a[k] == (a + [i])[k]; }
      StoreWords(p, q, root, used, a, i, w, o, k);
    }
  }

  lemma {:induction false} EmptyEndsWalk(p: Phys, root: nat, a: Path, i: nat)
    requires TableAt(p, root, a).Some? && TableAt(p, root, a).value < |p| && i < ENTRIES
    requires p[TableAt(p, root, a).value][i] == ZERO_WORD
    ensures TableAt(p, root, a + [i]) == None
  {
    assert (a + [i])[..|a|] == a;
  }

  /** A store into a last-level table changes the one word, for every walk. */
  lemma {:induction false} LeafWords(p: Phys, q: Phys, root: nat, used: set<nat>, page: Path, w: Word)
    requires TreeMap(p, root, used) && |page| == 4 && ValidPath(page) && TableAt(p, root, page[..3]).Some?
    requires StoredAt(p, q, used, TableAt(p, root, page[..3]).value, page[3], w)
    ensures forall o: Path, k: nat | |o| == 4 && ValidPath(o) && k < 4 ::
      WordOn(q, root, o, k) == if o == page && k == 3 then w else WordOn(p, root, o, k)
  {
    hide TableAt, TreeMap, WordOn;
    LeafStore(p, q, root, used, page, w);
    forall o: Path, k: nat | |o| == 4 && ValidPath(o) && k < 4
      ensures WordOn(q, root, o, k) == if o == page && k == 3 then w else WordOn(p, root, o, k)
    {
      assert ValidPath(o[..k]) && ValidPath(page[..3]) && o[..3] + [o[3]] == o && page[..3] + [page[3]] == page;
      StoreWords(p, q, root, used, page[..3], page[3], w, o, k);
    }
  }

  lemma {:induction false} LeafFills(p: Phys, q: Phys, root: nat, used: set<nat>, page: Path, w: Word, flags: set<nat>)
    requires TreeMap(p, root, used) && |page| == 4 && ValidPath(page) && TableAt(p, root, page[..3]).Some?
    requires StoredAt(p, q, used, TableAt(p, root, page[..3]).value, page[3], w)
    requires WordOn(p, root, page, 3) == ZERO_WORD && w.bits == flags + {PRESENT, WRITABLE}
    ensures OnlyFills(p, q, root, page, flags)
  {
    LeafWords(p, q, root, used, page, w);
    assert page[..4] == page;
    hide TableAt, TreeMap, WordOn;
  }

  // ---- What filling means for the pages ----

  /** Above its end a walk meets tables, and below it nothing. */
  lemma {:induction false} AroundEnd(p: Phys, root: nat, page: Path, n: nat, j: nat)
    requires |page| == 4 && ValidPath(page) && n < 4 && EndsAt(p, root, page, n) && j < 4
    ensures j < n ==> IsTable(WordOn(p, root, page, j))
    ensures j > n ==> WordOn(p, root, page, j) == ZERO_WORD
    ensures EndsAt(p, root, page, j) ==> j == n
  {
    if j < n {
      TablesAbove(p, root, page, j + 1, n);
      StepDown(p, root, page, j);
    } else if j > n {
      StepDown(p, root, page, n);
      if TableAt(p, root, page[..j]).Some? {
        TablesAbove(p, root, page, n + 1, j);
        assert false;
      }
    }
  }

  lemma {:induction false} EndWord(p: Phys, root: nat, page: Path, n: nat)
    requires |page| == 4 && ValidPath(page) && n < 4 && EndsAt(p, root, page, n)
    ensures n == 3 || !IsTable(WordOn(p, root, page, n))
  {
  }

  /** A walk that meets the same words ends at the same depth, from whatever root. */
  lemma {:induction false} SameEnd(p: Phys, root: nat, q: Phys, root': nat, page: Path, n: nat)
    requires |page| == 4 && ValidPath(page) && n < 4 && EndsAt(p, root, page, n)
    requires forall j | 0 <= j <= n :: WordOn(q, root', page, j) == WordOn(p, root, page, j)
    ensures EndsAt(q, root', page, n)
  {
    SameTables(p, root, q, root', page, n, n);
  }

  lemma {:induction false} SameTables(p: Phys, root: nat, q: Phys, root': nat, page: Path, n: nat, k: nat)
    requires |page| == 4 && ValidPath(page) && k <= n < 4
    requires forall j | 0 <= j <= n :: WordOn(q, root', page, j) == WordOn(p, root, page, j)
    ensures TableAt(q, root', page[..k]).Some? <==> TableAt(p, root, page[..k]).Some?
    decreases k
  {
    if k > 0 {
      SameTables(p, root, q, root', page, n, k - 1);
      StepDown(p, root, page, k - 1);
      StepDown(q, root', page, k - 1);
    } else {
      assert page[..0] == [];
    }
  }

  lemma {:induction false} FilledEnds(p: Phys, q: Phys, root: nat, page: Path, flags: set<nat>, o: Path, n: nat,
      n': nat)
    requires |page| == 4 && ValidPath(page) && LARGE !in flags && OnlyFills(p, q, root, page, flags)
    requires |o| == 4 && ValidPath(o) && o != page && n < 4 && n' < 4
    requires EndsAt(p, root, o, n) && EndsAt(q, root, o, n')
    ensures if WordOn(p, root, o, n) == ZERO_WORD then WordOn(q, root, o, n') == ZERO_WORD
            else n' == n && forall j | 0 <= j <= n :: WordOn(q, root, o, j) == WordOn(p, root, o, j)
  {
    hide EndsAt, WordOn;
    assert o[..4] == o && page[..4] == page;
    if WordOn(p, root, o, n) != ZERO_WORD {
      forall j | 0 <= j <= n
        ensures WordOn(q, root, o, j) == WordOn(p, root, o, j)
      {
        AroundEnd(p, root, o, n, j);
        assert Fills(p, q, root, page, flags, o, j);
      }
      SameEnd(p, root, q, root, o, n);
      AroundEnd(q, root, o, n, n');
    } else if WordOn(q, root, o, n') != ZERO_WORD {
      AroundEnd(p, root, o, n, n');
      assert Fills(p, q, root, page, flags, o, n');
      EndWord(q, root, o, n');
    }
  }

  /** Filling the way to a page changes the translation of no other page, nor what the check lets through. */
  lemma {:induction false} FillsApart(p: Phys, q: Phys, root: nat, page: Path, flags: set<nat>, o: Path)
    requires |p| == |q| == FRAME_LIMIT && root < |p| && |page| == 4 && ValidPath(page) && LARGE !in flags
    requires OnlyFills(p, q, root, page, flags) && |o| == 4 && ValidPath(o) && o != page
    ensures Translate(q, root, o, 0) == Translate(p, root, o, 0)
    ensures UserPath(q, root, o, 0) <==> UserPath(p, root, o, 0)
  {
    hide Translate, UserPath, OnlyFills;
    assert o[..0] == [];
    var n := WalkEnds(p, root, o, 0);
    var n' := WalkEnds(q, root, o, 0);
    TranslateEnds(p, root, o, n);
    TranslateEnds(q, root, o, n');
    ChecksEveryWord(p, root, o, n);
    ChecksEveryWord(q, root, o, n');
    FilledEnds(p, q, root, page, flags, o, n, n');
    hide EndsAt, WordOn;
    if WordOn(p, root, o, n) == ZERO_WORD {
      assert USER !in WordOn(p, root, o, n).bits && USER !in WordOn(q, root, o, n').bits;
    }
  }

  lemma {:induction false} FilledApart(p: Phys, q: Phys, root: nat, page: Path, flags: set<nat>)
    requires |p| == |q| == FRAME_LIMIT && root < |p| && |page| == 4 && ValidPath(page) && LARGE !in flags
    requires OnlyFills(p, q, root, page, flags)
    ensures forall o: Path | |o| == 4 && ValidPath(o) && o != page ::
      Translate(q, root, o, 0) == Translate(p, root, o, 0) && UserPath(q, root, o, 0) == UserPath(p, root, o, 0)
  {
    hide Translate, UserPath, OnlyFills;
    forall o: Path | |o| == 4 && ValidPath(o) && o != page
      ensures Translate(q, root, o, 0) == Translate(p, root, o, 0) && UserPath(q, root, o, 0) == UserPath(p, root, o, 0)
    {
      FillsApart(p, q, root, page, flags, o);
    }
  }

  /** Two maps whose walks to a page meet the same words translate it alike and let it pass alike. */
  lemma {:induction false} SameWords(p: Phys, root: nat, q: Phys, root': nat, o: Path)
    requires |p| == |q| == FRAME_LIMIT && root < |p| && root' < |q| && |o| == 4 && ValidPath(o)
    requires forall k | 0 <= k < 4 :: WordOn(q, root', o, k) == WordOn(p, root, o, k)
    ensures Translate(q, root', o, 0) == Translate(p, root, o, 0)
    ensures UserPath(q, root', o, 0) <==> UserPath(p, root, o, 0)
  {
    hide Translate, UserPath, WordOn;
    assert o[..0] == [];
    var n := WalkEnds(p, root, o, 0);
    SameEnd(p, root, q, root', o, n);
    TranslateEnds(p, root, o, n);
    TranslateEnds(q, root', o, n);
    ChecksEveryWord(p, root, o, n);
    ChecksEveryWord(q, root', o, n);
  }

  /** A store into a last-level table changes the translation of its page alone. */
  lemma {:induction false} LeafTranslations(p: Phys, q: Phys, root: nat, used: set<nat>, page: Path, w: Word)
    requires |p| == FRAME_LIMIT && root < |p|
    requires TreeMap(p, root, used) && |page| == 4 && ValidPath(page) && TableAt(p, root, page[..3]).Some?
    requires StoredAt(p, q, used, TableAt(p, root, page[..3]).value, page[3], w)
    ensures forall o: Path | |o| == 4 && ValidPath(o) && o != page ::
      Translate(q, root, o, 0) == Translate(p, root, o, 0) && UserPath(q, root, o, 0) == UserPath(p, root, o, 0)
    ensures Translate(q, root, page, 0) == if w == ZERO_WORD then Unmapped else PageOf(3, w)
  {
    hide Translate, UserPath, WordOn, TreeMap, TableAt;
    LeafStore(p, q, root, used, page, w);
    LeafWords(p, q, root, used, page, w);
    forall o: Path | |o| == 4 && ValidPath(o) && o != page
      ensures Translate(q, root, o, 0) == Translate(p, root, o, 0) && UserPath(q, root, o, 0) == UserPath(p, root, o, 0)
    {
      SameWords(p, root, q, root, o);
    }
    assert ValidPath(page[..3]);
    TranslateEnds(q, root, page, 3);
  }

  /** As OnlyFills with the tables on the way to a page, but that the page's own word may be any. */
  ghost predicate FillsAbove(p: Phys, q: Phys, root: nat, page: Path, flags: set<nat>)
    requires |page| == 4
  {
    forall o: Path, k: nat {:trigger Fills(p, q, root, page[..3], flags, o, k)} |
      |o| == 4 && ValidPath(o) && k < 4 && (o != page || k < 3) :: Fills(p, q, root, page[..3], flags, o, k)
  }

  /** Tables are filled in on the way to a page, and then its word is stored. */
  lemma {:induction false} MappedApart(p: Phys, q: Phys, r: Phys, root: nat, page: Path, flags: set<nat>)
    requires |p| == |q| == |r| == FRAME_LIMIT && root < |p| && |page| == 4 && ValidPath(page) && LARGE !in flags
    requires OnlyFills(p, q, root, page[..3], flags)
    requires forall o: Path, k: nat | |o| == 4 && ValidPath(o) && k < 4 && (o != page || k < 3) ::
      WordOn(r, root, o, k) == WordOn(q, root, o, k)
    ensures FillsAbove(p, r, root, page, flags)
    ensures forall o: Path | |o| == 4 && ValidPath(o) && o != page ::
      Translate(r, root, o, 0) == Translate(p, root, o, 0) && UserPath(r, root, o, 0) == UserPath(p, root, o, 0)
  {
    hide Translate, UserPath, WordOn;
    forall o: Path, k: nat | |o| == 4 && ValidPath(o) && k < 4 && (o != page || k < 3)
      ensures Fills(p, r, root, page[..3], flags, o, k)
    {
      assert Fills(p, q, root, page[..3], flags, o, k);
    }
    FillsNothing(q, root, page, flags);
    FillsFurther(p, q, q, root, page[..3], page, page, flags);
    forall o: Path | |o| == 4 && ValidPath(o) && o != page
      ensures Translate(r, root, o, 0) == Translate(p, root, o, 0) && UserPath(r, root, o, 0) == UserPath(p, root, o, 0)
    {
      FillsApart(p, q, root, page, flags, o);
      SameWords(q, root, r, root, o);
    }
  }

  /** And the page itself, once it is filled, passes the check exactly if it was created for user code and every word
      that was there before lets user code through. */
  lemma {:induction false} FilledPasses(p: Phys, q: Phys, root: nat, page: Path, flags: set<nat>)
    requires |q| == FRAME_LIMIT && root < |q| && |page| == 4 && ValidPath(page)
    requires OnlyFills(p, q, root, page, flags) && TableAt(q, root, page[..3]).Some?
    requires WordOn(p, root, page, 3) == ZERO_WORD && WordOn(q, root, page, 3) != ZERO_WORD
    ensures UserPath(q, root, page, 0) <==>
      USER in flags &&
      forall k | 0 <= k < 3 && WordOn(p, root, page, k) != ZERO_WORD :: USER in WordOn(p, root, page, k).bits
  {
    ChecksEveryWord(q, root, page, 3);
    hide TableAt, UserPath, OnlyFills;
    forall k | 0 <= k < 4
      ensures WordOn(p, root, page, k) != ZERO_WORD ==> WordOn(q, root, page, k) == WordOn(p, root, page, k)
      ensures WordOn(p, root, page, k) == ZERO_WORD ==> WordOn(q, root, page, k).bits == flags + {PRESENT, WRITABLE}
    {
      AroundEnd(q, root, page, 3, k);
      assert Fills(p, q, root, page, flags, page, k);
    }
  }
}
