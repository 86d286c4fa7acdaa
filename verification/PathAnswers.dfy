/**
 What the answer to a path is in terms of the files there are: for names alone, with "." and with "..".
 */
module PathAnswers {
  import opened Options
  import opened PathStrings
  import opened FileTrees
  import opened PathLookup

  // ---- Names alone ----

  /** While the files are there, the walk stands at the one the names so far lead to. */
  lemma {:induction false} WalkFinds(t: Tree, find: Finder, names: seq<string>, k: nat)
    requires HEAD in t && ChildrenKnow(t) && Plain(names) && k <= |names| && FileAt(t, find, names[..k]).Some?
    ensures FileAt(t, find, []).Some? && Walk(t, find, [], names) == Walk(t, find, names[..k], names[k..])
    decreases k
  {
    hide FileAt;
    if k > 0 {
      FrontFile(t, find, names[..k]);
      assert names[..k][..k - 1] == names[..k - 1] && names[..k - 1] + [names[k - 1]] == names[..k];
      assert names[k - 1] in names && names[k - 1..][1..] == names[k..];
      WalkFinds(t, find, names, k - 1);
    } else {
      assert names[..0] == [] && names[0..] == names;
    }
  }

  /** A path of names finds the file they lead to; is for a new file in the directory the others lead to, if only the
      last is missing; and finds nothing, if an earlier one is: unless that one's directory cannot be asked, when it is
      read through the null pointer. */
  lemma {:induction false} NamesAnswer(t: Tree, find: Finder, path: string, names: seq<string>, x: string)
    requires Linked(t) && Components(path, "/") == names + [x] && Plain(names + [x]) && path != "/"
    ensures FileAt(t, find, names + [x]).Some? ==>
      Lookup(t, find, path) == Found(FileAt(t, find, names + [x]).value)
    ensures FileAt(t, find, names).Some? && FileAt(t, find, names + [x]).None? ==>
      Lookup(t, find, path) == Creatable(FileAt(t, find, names).value, x)
    ensures forall k | 0 <= k < |names| && FileAt(t, find, names[..k]).Some? &&
              FileAt(t, find, names[..k + 1]).None? ::
      Lookup(t, find, path) == if FileAt(t, find, names[..k]).value.findable then NotFound else NullRead
  {
    assert FileAt(t, find, []).Some?;
    hide FileAt, Linked, Components, Walk;
    Parts(t);
    if FileAt(t, find, names + [x]).Some? {
      LastName(t, find, names, x);
    } else if FileAt(t, find, names).Some? {
      NewName(t, find, names, x);
    }
    forall k | 0 <= k < |names| && FileAt(t, find, names[..k]).Some? && FileAt(t, find, names[..k + 1]).None?
      ensures Walk(t, find, [], names + [x]) ==
        if FileAt(t, find, names[..k]).value.findable then NotFound else NullRead
    {
      MissingName(t, find, names, x, k);
    }
  }

  lemma {:induction false} LastName(t: Tree, find: Finder, names: seq<string>, x: string)
    requires HEAD in t && ChildrenKnow(t) && Plain(names + [x]) && FileAt(t, find, names + [x]).Some?
    ensures FileAt(t, find, []).Some? && Walk(t, find, [], names + [x]) == Found(FileAt(t, find, names + [x]).value)
  {
    hide FileAt;
    var all := names + [x];
    assert all[..|all|] == all && all[|all|..] == [];
    WalkFinds(t, find, all, |all|);
  }

  lemma {:induction false} NewName(t: Tree, find: Finder, names: seq<string>, x: string)
    requires HEAD in t && ChildrenKnow(t) && Plain(names + [x])
    requires FileAt(t, find, names).Some? && FileAt(t, find, names + [x]).None?
    ensures FileAt(t, find, []).Some? && Walk(t, find, [], names + [x]) == Creatable(FileAt(t, find, names).value, x)
  {
    hide FileAt;
    var all, n := names + [x], |names|;
    assert all[..n] == names && all[n..] == [x] && x in all;
    WalkFinds(t, find, all, n);
  }

  lemma {:induction false} MissingName(t: Tree, find: Finder, names: seq<string>, x: string, k: nat)
    requires HEAD in t && ChildrenKnow(t) && Plain(names + [x]) && k < |names|
    requires FileAt(t, find, names[..k]).Some? && FileAt(t, find, names[..k + 1]).None? && FileAt(t, find, []).Some?
    ensures Walk(t, find, [], names + [x]) ==
      if FileAt(t, find, names[..k]).value.findable then NotFound else NullRead
  {
    hide FileAt;
    var all := names + [x];
    assert all[..k] == names[..k] && all[..k + 1] == names[..k + 1] && all[..k] + [all[k]] == all[..k + 1];
    assert all[k] in all && all[k + 1] in all && all[k..][1..] == all[k + 1..] && all[k + 1..][0] == all[k + 1];
    WalkFinds(t, find, all, k);
  }

  /** The same for the path that the names are printed as. */
  lemma {:induction false} PrintedAnswer(t: Tree, find: Finder, names: seq<string>, x: string)
    requires Linked(t) && Plain(names + [x])
    requires forall i | 0 <= i <= |names| :: (names + [x])[i] != "" && '/' !in (names + [x])[i]
    ensures FileAt(t, find, names + [x]).Some? ==>
      Lookup(t, find, Join(names + [x])) == Found(FileAt(t, find, names + [x]).value)
    ensures FileAt(t, find, names).Some? && FileAt(t, find, names + [x]).None? ==>
      Lookup(t, find, Join(names + [x])) == Creatable(FileAt(t, find, names).value, x)
    ensures forall k | 0 <= k < |names| && FileAt(t, find, names[..k]).Some? &&
              FileAt(t, find, names[..k + 1]).None? ::
      Lookup(t, find, Join(names + [x])) ==
      if FileAt(t, find, names[..k]).value.findable then NotFound else NullRead
  {
    hide FileAt, Linked, Components;
    PrintedComponents(names + [x]);
    NamesAnswer(t, find, Join(names + [x]), names, x);
  }

  /** A path that is printed from names is not just a slash, and its components are the names. */
  lemma {:induction false} PrintedComponents(names: seq<string>)
    requires names != [] && forall i | 0 <= i < |names| :: names[i] != "" && '/' !in names[i]
    ensures Components(Join(names), "/") == names && Join(names) != "/"
  {
    ComponentsOfJoin(names);
    assert Join(names)[1] == names[0][0];
  }

  // ---- "." and ".." ----

  /** A walk goes on from where it stands. */
  lemma {:induction false} WalkOn(t: Tree, find: Finder, pos: seq<string>, a: seq<string>, b: seq<string>)
    requires HEAD in t && ChildrenKnow(t) && FileAt(t, find, pos).Some? && Standing(t, find, pos, a).Some?
    ensures Walk(t, find, pos, a + b) == Walk(t, find, Standing(t, find, pos, a).value, b)
    decreases |a|
  {
    hide FileAt;
    if a == [] {
      assert a + b == b;
    } else {
      assert (a + b)[0] == a[0] && (a + b)[1..] == a[1..] + b;
      assert |a + b| != 0;
      if a[0] == UP {
        FrontFile(t, find, pos);
        WalkOn(t, find, pos[..|pos| - 1], a[1..], b);
      } else if a[0] == HERE {
        WalkOn(t, find, pos, a[1..], b);
      } else {
        WalkOn(t, find, pos + [a[0]], a[1..], b);
      }
    }
  }

  lemma {:induction false} StrandedDot(a: seq<string>, b: seq<string>)
    ensures Stranded(a + [HERE] + b) == Stranded(a + b)
    decreases |a|
  {
    if a == [] {
      assert a + [HERE] + b == [HERE] + b && ([HERE] + b)[1..] == b && a + b == b;
    } else {
      assert (a + [HERE] + b)[1..] == a[1..] + [HERE] + b && (a + b)[1..] == a[1..] + b;
      StrandedDot(a[1..], b);
    }
  }

  /** A "." can be cut out of the walk without changing the answer, unless it is the last component and what is before
      it is a file still to be made: "x/." makes no x. */
  lemma {:induction false} DotCut(t: Tree, find: Finder, pos: seq<string>, a: seq<string>, b: seq<string>)
    requires HEAD in t && ChildrenKnow(t) && FileAt(t, find, pos).Some?
    ensures Walk(t, find, pos, a + [HERE] + b) == Walk(t, find, pos, a + b) <==>
            !(b == [] && Walk(t, find, pos, a + b).Creatable?)
    decreases |a|
  {
    hide FileAt, Stranded;
    var dotted := a + [HERE] + b;
    if a == [] {
      assert dotted == [HERE] + b && dotted[1..] == b && a + b == b;
    } else {
      assert dotted[0] == a[0] && dotted[1..] == a[1..] + [HERE] + b && (a + b)[0] == a[0] &&
        (a + b)[1..] == a[1..] + b;
      if a[0] == UP && pos != [] {
        FrontFile(t, find, pos);
        DotCut(t, find, pos[..|pos| - 1], a[1..], b);
      } else if a[0] == HERE {
        DotCut(t, find, pos, a[1..], b);
      } else if a[0] != UP && FileAt(t, find, pos + [a[0]]).Some? {
        DotCut(t, find, pos + [a[0]], a[1..], b);
      } else if a[0] != UP {
        StrandedDot(a[1..], b);
        StrandedNever(a[1..] + [HERE] + b);
        StrandedNever(a[1..] + b);
      }
    }
  }

  lemma {:induction false} StrandedNever(toks: seq<string>)
    ensures Stranded(toks) == NotFound || Stranded(toks) == NullRead
    decreases |toks|
  {
    if toks != [] {
      StrandedNever(toks[1..]);
    }
  }

  /** A name that is found and a ".." right behind it can be cut out. */
  lemma {:induction false} UpCut(t: Tree, find: Finder, pos: seq<string>, a: seq<string>, x: string, b: seq<string>)
    requires HEAD in t && ChildrenKnow(t) && FileAt(t, find, pos).Some? && Standing(t, find, pos, a).Some?
    requires x != UP && x != HERE && FileAt(t, find, Standing(t, find, pos, a).value + [x]).Some?
    ensures Walk(t, find, pos, a + [x, UP] + b) == Walk(t, find, pos, a + b)
  {
    hide FileAt;
    var place := Standing(t, find, pos, a).value;
    assert a + [x, UP] + b == a + ([x, UP] + b);
    WalkOn(t, find, pos, a, [x, UP] + b);
    WalkOn(t, find, pos, a, b);
    assert ([x, UP] + b)[0] == x && ([x, UP] + b)[1..] == [UP] + b && ([UP] + b)[1..] == b;
    assert place + [x] != [] && (place + [x])[..|place + [x]| - 1] == place;
  }

  /** A ".." at the root ends the walk there, whatever follows. */
  lemma {:induction false} UpAtRoot(t: Tree, find: Finder, a: seq<string>, b: seq<string>)
    requires HEAD in t && ChildrenKnow(t) && FileAt(t, find, []).Some? && Standing(t, find, [], a) == Some([])
    ensures Walk(t, find, [], a + [UP] + b) == Found(t[HEAD].file)
  {
    assert a + [UP] + b == a + ([UP] + b) && ([UP] + b)[0] == UP;
    WalkOn(t, find, [], a, [UP] + b);
  }

  /** The three of them for paths. */
  lemma {:induction false} DotsAnswer(t: Tree, find: Finder, path: string, other: string, a: seq<string>,
      b: seq<string>)
    requires Linked(t) && path != "/" && other != "/" && a + b != [] && Components(other, "/") == a + b
    ensures Components(path, "/") == a + [HERE] + b ==>
      (Lookup(t, find, path) == Lookup(t, find, other) <==> !(b == [] && Lookup(t, find, other).Creatable?))
    ensures forall x: string | x != UP && x != HERE && Components(path, "/") == a + [x, UP] + b &&
              FileAt(t, find, []).Some? && Standing(t, find, [], a).Some? &&
              FileAt(t, find, Standing(t, find, [], a).value + [x]).Some? ::
      Lookup(t, find, path) == Lookup(t, find, other)
    ensures Components(path, "/") == a + [UP] + b && FileAt(t, find, []).Some? &&
            Standing(t, find, [], a) == Some([]) ==>
      Lookup(t, find, path) == Found(t[HEAD].file)
  {
    assert FileAt(t, find, []).Some?;
    hide FileAt, Linked, Components, Walk, Standing;
    Parts(t);
    if Components(path, "/") == a + [HERE] + b {
      DotCut(t, find, [], a, b);
    }
    forall x: string | x != UP && x != HERE && Components(path, "/") == a + [x, UP] + b &&
      Standing(t, find, [], a).Some? && FileAt(t, find, Standing(t, find, [], a).value + [x]).Some?
      ensures Lookup(t, find, path) == Lookup(t, find, other)
    {
      UpCut(t, find, [], a, x, b);
    }
    if Components(path, "/") == a + [UP] + b && Standing(t, find, [], a) == Some([]) {
      UpAtRoot(t, find, a, b);
    }
  }
}
