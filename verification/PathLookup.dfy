/**
 What resolving an absolute path means, with no cache in sight, and what caching may do to the tree.
 */
module PathLookup {
  import opened Options
  import opened PathStrings
  import opened FileTrees

  /** The file; nothing; nothing yet, but a parent in which the last name could be created; or a read through the null
      pointer that stands for a missing directory. */
  datatype Outcome = Found(file: File) | NotFound | Creatable(parent: File, name: string) | NullRead

  const UP := ".."
  const HERE := "."

  predicate Plain(toks: seq<string>) {
    UP !in toks && HERE !in toks
  }

  lemma {:induction false} FrontFile(t: Tree, find: Finder, names: seq<string>)
    requires HEAD in t && ChildrenKnow(t) && FileAt(t, find, names).Some? && names != []
    ensures FileAt(t, find, names[..|names| - 1]).Some?
  {
  }

  /** The rest of the loop once a directory is missing and could not be asked: only "." is harmless. */
  function Stranded(toks: seq<string>): Outcome {
    if toks == [] then NotFound else if toks[0] == HERE then Stranded(toks[1..]) else NullRead
  }

  /** From the place `pos` names, along the components: ".." at the root ends the walk there and then. */
  function Walk(t: Tree, find: Finder, pos: seq<string>, toks: seq<string>): Outcome
    requires HEAD in t && ChildrenKnow(t) && FileAt(t, find, pos).Some?
    decreases |toks|
  {
    if toks == [] then Found(FileAt(t, find, pos).value)
    else if toks[0] == UP then
      if pos == [] then Found(FileAt(t, find, pos).value)
      else
        FrontFile(t, find, pos);
        Walk(t, find, pos[..|pos| - 1], toks[1..])
    else if toks[0] == HERE then Walk(t, find, pos, toks[1..])
    else if FileAt(t, find, pos + [toks[0]]).Some? then Walk(t, find, pos + [toks[0]], toks[1..])
    else if |toks| == 1 then Creatable(FileAt(t, find, pos).value, toks[0])
    else if FileAt(t, find, pos).value.findable then NotFound
    else Stranded(toks[1..])
  }

  /** The places the walk descends to. */
  ghost function Visited(t: Tree, find: Finder, pos: seq<string>, toks: seq<string>): set<seq<string>>
    requires HEAD in t && ChildrenKnow(t) && FileAt(t, find, pos).Some?
    decreases |toks|
  {
    if toks == [] || (toks[0] == UP && pos == []) then {}
    else if toks[0] == UP then
      FrontFile(t, find, pos);
      Visited(t, find, pos[..|pos| - 1], toks[1..])
    else if toks[0] == HERE then Visited(t, find, pos, toks[1..])
    else if FileAt(t, find, pos + [toks[0]]).Some? then
      {pos + [toks[0]]} + Visited(t, find, pos + [toks[0]], toks[1..])
    else {}
  }

  /** Resolving a path that starts with a slash.  A path of several slashes and nothing else finds nothing. */
  function Lookup(t: Tree, find: Finder, path: string): Outcome
    requires Linked(t)
  {
    if path == "/" then Found(t[HEAD].file)
    else if Components(path, "/") == [] then NotFound
    else Walk(t, find, [], Components(path, "/"))
  }

  /** Of the paths made of slashes only, one slash is found and no other. */
  lemma {:induction false} SlashesOnly(t: Tree, find: Finder, path: string)
    requires Linked(t) && path != "" && forall c <- path :: c == '/'
    ensures Lookup(t, find, path) == (if |path| == 1 then Found(t[HEAD].file) else NotFound)
    ensures Lookup(t, find, path) == Found(t[HEAD].file) <==> |path| == 1
  {
    forall k | 0 <= k < |path|
      ensures path[k] in "/"
    {
      assert path[k] in path && "/"[0] == '/';
    }
    SpanExact(path, "/", true, |path|);
    assert path[|path|..] == "";
    if |path| == 1 {
      assert path == "/";
    }
  }

  // ---- What the cache may do ----

  /** From t to u only cached nodes have been added, at the places in `seen`; no lookup can tell. */
  ghost predicate Grown(t: Tree, u: Tree, find: Finder, seen: set<seq<string>>)
    requires Linked(t)
  {
    Linked(u) &&
    (forall q :: FileAt(u, find, q) == FileAt(t, find, q)) &&
    (forall q :: NodeAt(u, q).Some? <==> NodeAt(t, q).Some? || q in seen) &&
    (forall n | n in t ::
      n in u && u[n].file == t[n].file && u[n].parent == t[n].parent && t[n].children <= u[n].children)
  }

  lemma {:induction false} GrownCompose(t: Tree, u: Tree, v: Tree, find: Finder, a: set<seq<string>>,
      b: set<seq<string>>)
    requires Linked(t) && Grown(t, u, find, a) && Grown(u, v, find, b)
    ensures Grown(t, v, find, a + b)
  {
    hide Linked, FileAt, NodeAt;
  }

  /** What a lookup says depends on the files only, not on which of them the tree holds. */
  lemma {:induction false} SameFilesSameWalk(t: Tree, u: Tree, find: Finder, pos: seq<string>, toks: seq<string>)
    requires HEAD in t && ChildrenKnow(t) && HEAD in u && ChildrenKnow(u) && FileAt(t, find, pos).Some?
    requires forall q :: FileAt(u, find, q) == FileAt(t, find, q)
    ensures Walk(t, find, pos, toks) == Walk(u, find, pos, toks)
    ensures Visited(t, find, pos, toks) == Visited(u, find, pos, toks)
    decreases |toks|
  {
    hide FileAt, NodeAt, ChildrenKnow, Stranded;
    if toks != [] {
      if toks[0] == UP && pos != [] {
        FrontFile(t, find, pos);
        SameFilesSameWalk(t, u, find, pos[..|pos| - 1], toks[1..]);
      } else if toks[0] == HERE {
        SameFilesSameWalk(t, u, find, pos, toks[1..]);
      } else if FileAt(t, find, pos + [toks[0]]).Some? {
        SameFilesSameWalk(t, u, find, pos + [toks[0]], toks[1..]);
      }
    }
  }

  /** The cache is transparent: after any caching every path resolves as it did before. */
  lemma {:induction false} LookupUnchanged(t: Tree, u: Tree, find: Finder, seen: set<seq<string>>, path: string)
    requires Linked(t) && Grown(t, u, find, seen)
    ensures Lookup(u, find, path) == Lookup(t, find, path)
  {
    assert FileAt(u, find, []) == FileAt(t, find, []);
    SameFilesSameWalk(t, u, find, [], Components(path, "/"));
  }

  // ---- The round trip ----

  lemma {:induction false} FrontNode(t: Tree, names: seq<string>, k: nat)
    requires HEAD in t && ChildrenKnow(t) && NodeAt(t, names).Some? && k <= |names|
    ensures NodeAt(t, names[..k]).Some?
    decreases |names|
  {
    if k < |names| {
      FrontNode(t, names[..|names| - 1], k);
      assert names[..|names| - 1][..k] == names[..k];
    } else {
      assert names[..k] == names;
    }
  }

  lemma {:induction false} WalkDown(t: Tree, find: Finder, pos: seq<string>, toks: seq<string>)
    requires HEAD in t && ChildrenKnow(t) && NodeAt(t, pos + toks).Some? && NodeAt(t, pos).Some? && Plain(toks)
    ensures Walk(t, find, pos, toks) == Found(t[NodeAt(t, pos + toks).value].file)
    decreases |toks|
  {
    if toks == [] {
      assert pos + toks == pos;
    } else {
      assert (pos + toks)[..|pos| + 1] == pos + [toks[0]];
      assert pos + [toks[0]] + toks[1..] == pos + toks;
      FrontNode(t, pos + toks, |pos| + 1);
      WalkDown(t, find, pos + [toks[0]], toks[1..]);
    }
  }

  /** Names that paths can spell. */
  ghost predicate Spellable(t: Tree) {
    forall n | n in t && n != HEAD ::
      t[n].file.name != "" && '/' !in t[n].file.name && t[n].file.name != UP && t[n].file.name != HERE
  }

  lemma {:induction false} PathSpellable(t: Tree, n: nat)
    requires Linked(t) && Spellable(t) && n in t
    ensures Plain(PathOf(t, n)) && forall i | 0 <= i < |PathOf(t, n)| ::
      PathOf(t, n)[i] != "" && '/' !in PathOf(t, n)[i]
    decreases n
  {
    if t[n].parent.Some? {
      PathSpellable(t, t[n].parent.value);
    }
  }

  /** Resolving the full path of a node gives that node's file. */
  lemma {:induction false} PathRoundTrip(t: Tree, find: Finder, n: nat)
    requires Linked(t) && Spellable(t) && n in t && n != HEAD && Attached(t, n)
    ensures Lookup(t, find, Join(PathOf(t, n))) == Found(t[n].file)
  {
    var names := PathOf(t, n);
    PathSpellable(t, n);
    PathLeadsTo(t, n);
    ComponentsOfJoin(names);
    assert [] + names == names;
    WalkDown(t, find, [], names);
    assert Join(names)[1] == names[0][0];
  }

  // ---- When a missing directory is read through ----

  /** The place a walk has come to when it found every component and did not end at the root. */
  ghost function Standing(t: Tree, find: Finder, pos: seq<string>, toks: seq<string>): (r: Option<seq<string>>)
    requires HEAD in t && ChildrenKnow(t) && FileAt(t, find, pos).Some?
    ensures r.Some? ==> FileAt(t, find, r.value).Some?
    decreases |toks|
  {
    if toks == [] then Some(pos)
    else if toks[0] == UP then
      if pos == [] then None
      else
        FrontFile(t, find, pos);
        Standing(t, find, pos[..|pos| - 1], toks[1..])
    else if toks[0] == HERE then Standing(t, find, pos, toks[1..])
    else if FileAt(t, find, pos + [toks[0]]).Some? then Standing(t, find, pos + [toks[0]], toks[1..])
    else None
  }

  /** Component k is missing from a directory that cannot be asked, and not only "." follows it. */
  ghost predicate StrandsAt(t: Tree, find: Finder, pos: seq<string>, toks: seq<string>, k: nat)
    requires HEAD in t && ChildrenKnow(t) && FileAt(t, find, pos).Some?
  {
    k < |toks| && toks[k] != UP && toks[k] != HERE && MoreThanHere(toks[k + 1..]) &&
    var place := Standing(t, find, pos, toks[..k]);
    place.Some? && !FileAt(t, find, place.value).value.findable && FileAt(t, find, place.value + [toks[k]]).None?
  }

  predicate MoreThanHere(toks: seq<string>) {
    exists j | 0 <= j < |toks| :: toks[j] != HERE
  }

  lemma {:induction false} StrandedExactly(toks: seq<string>)
    ensures Stranded(toks) == NullRead <==> MoreThanHere(toks)
    decreases |toks|
  {
    if toks != [] {
      StrandedExactly(toks[1..]);
      assert forall j | 0 < j < |toks| :: toks[j] == toks[1..][j - 1];
      assert forall j | 0 <= j < |toks[1..]| :: toks[1..][j] == toks[j + 1];
    }
  }

  /** The first component taken off: the same stranding, one place earlier. */
  lemma {:induction false} StrandsShift(t: Tree, find: Finder, pos: seq<string>, next: seq<string>, toks: seq<string>)
    requires HEAD in t && ChildrenKnow(t) && FileAt(t, find, pos).Some? && FileAt(t, find, next).Some? && toks != []
    requires forall k | 1 <= k <= |toks| ::
      Standing(t, find, pos, toks[..k]) == Standing(t, find, next, toks[1..][..k - 1])
    requires !StrandsAt(t, find, pos, toks, 0)
    ensures (exists k: nat :: StrandsAt(t, find, pos, toks, k)) <==>
      exists k: nat :: StrandsAt(t, find, next, toks[1..], k)
  {
    hide FileAt, Standing, MoreThanHere;
    forall k: nat
      ensures StrandsAt(t, find, next, toks[1..], k) <==> StrandsAt(t, find, pos, toks, k + 1)
    {
      if k + 1 < |toks| {
        assert toks[1..][k] == toks[k + 1] && toks[1..][k + 1..] == toks[k + 2..];
      }
    }
    if k: nat :| StrandsAt(t, find, pos, toks, k) {
      assert StrandsAt(t, find, next, toks[1..], k - 1);
    }
  }

  lemma {:induction false} StandingShift(t: Tree, find: Finder, pos: seq<string>, next: seq<string>, toks: seq<string>)
    requires HEAD in t && ChildrenKnow(t) && FileAt(t, find, pos).Some? && FileAt(t, find, next).Some? && toks != []
    requires if toks[0] == UP then pos != [] && next == pos[..|pos| - 1]
             else if toks[0] == HERE then next == pos else next == pos + [toks[0]]
    ensures forall k | 1 <= k <= |toks| ::
      Standing(t, find, pos, toks[..k]) == Standing(t, find, next, toks[1..][..k - 1])
  {
    hide FileAt;
    forall k | 1 <= k <= |toks|
      ensures Standing(t, find, pos, toks[..k]) == Standing(t, find, next, toks[1..][..k - 1])
    {
      assert toks[..k][0] == toks[0] && toks[..k][1..] == toks[1..][..k - 1];
    }
  }

  /** For every path, with "." and ".." in it or not: a missing directory is read through the null pointer exactly when
      the walk strands. */
  lemma {:induction false} StrandsOnlyThere(t: Tree, find: Finder, pos: seq<string>, toks: seq<string>)
    requires HEAD in t && ChildrenKnow(t) && FileAt(t, find, pos).Some?
    ensures Walk(t, find, pos, toks) == NullRead <==> exists k: nat :: StrandsAt(t, find, pos, toks, k)
    decreases |toks|
  {
    hide FileAt, NodeAt, Stranded;
    if toks == [] {
    } else if toks[0] == UP && pos == [] {
      NoneStand(t, find, pos, toks);
    } else if toks[0] == UP || toks[0] == HERE || FileAt(t, find, pos + [toks[0]]).Some? {
      if toks[0] == UP {
        FrontFile(t, find, pos);
      }
      var next := if toks[0] == UP then pos[..|pos| - 1] else if toks[0] == HERE then pos else pos + [toks[0]];
      assert toks[..0] == [];
      StandingShift(t, find, pos, next, toks);
      StrandsShift(t, find, pos, next, toks);
      StrandsOnlyThere(t, find, next, toks[1..]);
    } else {
      NoneStand(t, find, pos, toks);
      StrandedExactly(toks[1..]);
      assert toks[..0] == [];
      assert StrandsAt(t, find, pos, toks, 0) <==>
        MoreThanHere(toks[1..]) && !FileAt(t, find, pos).value.findable;
    }
  }

  /** A tree that has only a root, whose driver cannot be asked. */
  function BareTree(): (t: Tree)
    ensures HEAD in t && Linked(t)
  {
    map[HEAD := Node(File(0, "", false), None, [])]
  }

  lemma {:induction false} BareWalk(find: Finder, a: string, b: string)
    requires a != UP && a != HERE && b != HERE && ChildrenKnow(BareTree())
    ensures FileAt(BareTree(), find, []).Some? && Walk(BareTree(), find, [], [a, b]) == NullRead
  {
    var t := BareTree();
    assert [a][..0] == [] && [a, b][1..] == [b] && [] + [a] == [a];
    assert NodeAt(t, [a]).None? && FileAt(t, find, [a]).None?;
  }

  /** In it, the path of a file in a missing directory. */
  lemma {:induction false} NullReadExample(find: Finder)
    ensures Lookup(BareTree(), find, "/a/b") == NullRead
  {
    hide Walk, BareTree, Components, Linked;
    assert ChildrenKnow(BareTree()) by {
      Parts(BareTree());
    }
    var names := ["a", "b"];
    ComponentsOfJoin(names);
    assert names[1..] == ["b"] && ["b"][1..] == [];
    assert Join(names) == "/a/b";
    BareWalk(find, "a", "b");
  }

  /** A walk that ends or fails at its first component stands nowhere after it. */
  lemma {:induction false} NoneStand(t: Tree, find: Finder, pos: seq<string>, toks: seq<string>)
    requires HEAD in t && ChildrenKnow(t) && FileAt(t, find, pos).Some? && toks != []
    requires if toks[0] == UP then pos == [] else toks[0] != HERE && FileAt(t, find, pos + [toks[0]]).None?
    ensures forall k | 1 <= k <= |toks| :: Standing(t, find, pos, toks[..k]) == None
    ensures forall k: nat | k > 0 :: !StrandsAt(t, find, pos, toks, k)
  {
    hide FileAt;
    forall k | 1 <= k <= |toks|
      ensures Standing(t, find, pos, toks[..k]) == None
    {
      assert toks[..k][0] == toks[0];
    }
  }

  // ---- The loop of resolve_path ----

  /** The places a resolution descends to. */
  ghost function Reached(t: Tree, find: Finder, path: string): set<seq<string>>
    requires Linked(t)
  {
    if path == "/" then {} else Visited(t, find, [], Components(path, "/"))
  }

  /** Started in t with all components, the loop stands at `current` in u, place `pos`, with `rest` to go. */
  ghost predicate Way(t: Tree, u: Tree, find: Finder, all: seq<string>, current: Option<nat>, pos: seq<string>,
      rest: seq<string>, seen: set<seq<string>>)
    requires Linked(t)
  {
    Grown(t, u, find, seen) && ((forall q <- seen :: NodeAt(t, q).Some?) ==> u == t) &&
    Goes(t, u, find, all, current, pos, rest, seen)
  }

  ghost predicate Goes(t: Tree, u: Tree, find: Finder, all: seq<string>, current: Option<nat>, pos: seq<string>,
      rest: seq<string>, seen: set<seq<string>>)
    requires HEAD in t && ChildrenKnow(t) && HEAD in u && ChildrenKnow(u)
  {
    if current.Some? then
      NodeAt(u, pos) == current && FileAt(t, find, pos).Some? && Walk(t, find, [], all) == Walk(t, find, pos, rest) &&
      Visited(t, find, [], all) == seen + Visited(t, find, pos, rest)
    else
      Walk(t, find, [], all) == Stranded(rest) && Visited(t, find, [], all) == seen
  }

  lemma {:induction false} WayStarts(t: Tree, find: Finder, all: seq<string>)
    requires Linked(t)
    ensures Way(t, t, find, all, Some(HEAD), [], all, {})
  {
  }

  lemma {:induction false} WayEnds(t: Tree, u: Tree, find: Finder, all: seq<string>, current: Option<nat>,
      pos: seq<string>, rest: seq<string>, seen: set<seq<string>>)
    requires Linked(t) && Way(t, u, find, all, current, pos, rest, seen)
    requires rest == [] || (rest[0] == UP && current == Some(HEAD))
    ensures Visited(t, find, [], all) == seen && (current.Some? ==> current.value in u)
    ensures Walk(t, find, [], all) == if current.Some? then Found(u[current.value].file) else NotFound
  {
    if current.Some? {
      FoundHasPath(u, pos);
      assert FileAt(u, find, pos) == FileAt(t, find, pos);
    }
  }

  lemma {:induction false} WayHere(t: Tree, u: Tree, find: Finder, all: seq<string>, current: Option<nat>,
      pos: seq<string>, rest: seq<string>, seen: set<seq<string>>)
    requires Linked(t) && Way(t, u, find, all, current, pos, rest, seen) && rest != [] && rest[0] == HERE
    ensures Way(t, u, find, all, current, pos, rest[1..], seen)
  {
    hide Grown, FileAt, NodeAt;
  }

  lemma {:induction false} WayUp(t: Tree, u: Tree, find: Finder, all: seq<string>, current: nat, pos: seq<string>,
                                 rest: seq<string>, seen: set<seq<string>>)
    requires Linked(t) && Way(t, u, find, all, Some(current), pos, rest, seen) && rest != [] && rest[0] == UP &&
      current != HEAD
    ensures pos != [] && current in u && u[current].parent.Some?
    ensures Way(t, u, find, all, u[current].parent, pos[..|pos| - 1], rest[1..], seen)
  {
    hide FileAt;
    FoundHasPath(u, pos);
    ChildOf(u, pos);
    FrontFile(t, find, pos);
  }

  lemma {:induction false} ChildOf(u: Tree, pos: seq<string>)
    requires Linked(u) && NodeAt(u, pos).Some? && pos != []
    ensures u[NodeAt(u, pos).value].parent == NodeAt(u, pos[..|pos| - 1]) && u[NodeAt(u, pos).value].parent.Some?
  {
    ChildIs(u, NodeAt(u, pos[..|pos| - 1]).value, NodeAt(u, pos).value);
  }

  lemma {:induction false} WayDown(t: Tree, u: Tree, v: Tree, find: Finder, all: seq<string>, current: nat, child: nat,
                                   pos: seq<string>, rest: seq<string>, seen: set<seq<string>>)
    requires Linked(t) && Way(t, u, find, all, Some(current), pos, rest, seen) && rest != [] && Plain([rest[0]])
    requires Linked(u) && Grown(u, v, find, {pos + [rest[0]]}) && NodeAt(v, pos + [rest[0]]) == Some(child)
    requires FileAt(u, find, pos + [rest[0]]).Some? && (NodeAt(u, pos + [rest[0]]).Some? ==> v == u)
    ensures Way(t, v, find, all, Some(child), pos + [rest[0]], rest[1..], seen + {pos + [rest[0]]})
  {
    hide FileAt, NodeAt, Linked;
    var next := pos + [rest[0]];
    GrownCompose(t, u, v, find, seen, {next});
    PlainHead(rest);
    SameFile(t, u, find, seen, next);
    HeldSeen(t, u, v, find, seen, next);
  }

  lemma {:induction false} PlainHead(rest: seq<string>)
    requires rest != [] && Plain([rest[0]])
    ensures rest[0] != UP && rest[0] != HERE
  {
    assert rest[0] in [rest[0]];
  }

  lemma {:induction false} SameFile(t: Tree, u: Tree, find: Finder, seen: set<seq<string>>, q: seq<string>)
    requires Linked(t) && Grown(t, u, find, seen)
    ensures FileAt(u, find, q) == FileAt(t, find, q)
  {
  }

  lemma {:induction false} HeldSeen(t: Tree, u: Tree, v: Tree, find: Finder, seen: set<seq<string>>, next: seq<string>)
    requires Linked(t) && Linked(u) && ((forall q <- seen :: NodeAt(t, q).Some?) ==> u == t) &&
      (NodeAt(u, next).Some? ==> v == u)
    ensures (forall q <- seen + {next} :: NodeAt(t, q).Some?) ==> v == t
  {
    hide Linked, NodeAt;
    Parts(t);
    if forall q <- seen + {next} :: NodeAt(t, q).Some? {
      assert next in seen + {next};
      assert forall q <- seen :: q in seen + {next};
    }
  }

  lemma {:induction false} WayStuck(t: Tree, u: Tree, find: Finder, all: seq<string>, current: nat, pos: seq<string>,
                                    rest: seq<string>, seen: set<seq<string>>)
    requires Linked(t) && Way(t, u, find, all, Some(current), pos, rest, seen) && rest != [] && Plain([rest[0]])
    requires HEAD in u && ChildrenKnow(u) && FileAt(u, find, pos + [rest[0]]).None?
    ensures current in u && Visited(t, find, [], all) == seen
    ensures |rest| == 1 ==> Walk(t, find, [], all) == Creatable(u[current].file, rest[0])
    ensures |rest| > 1 && u[current].file.findable ==> Walk(t, find, [], all) == NotFound
    ensures |rest| > 1 && !u[current].file.findable ==> Way(t, u, find, all, None, pos, rest[1..], seen)
  {
    PlainHead(rest);
    assert FileAt(u, find, pos) == FileAt(t, find, pos);
    SameFile(t, u, find, seen, pos + [rest[0]]);
  }

  lemma {:induction false} WayAt(t: Tree, u: Tree, find: Finder, all: seq<string>, current: nat, pos: seq<string>,
      rest: seq<string>, seen: set<seq<string>>)
    requires Linked(t) && Way(t, u, find, all, Some(current), pos, rest, seen)
    ensures Linked(u) && NodeAt(u, pos) == Some(current)
  {
  }

  lemma {:induction false} WayNull(t: Tree, u: Tree, find: Finder, all: seq<string>, pos: seq<string>,
      rest: seq<string>, seen: set<seq<string>>)
    requires Linked(t) && Way(t, u, find, all, None, pos, rest, seen) && rest != [] && rest[0] != HERE
    ensures Walk(t, find, [], all) == NullRead && Visited(t, find, [], all) == seen
  {
    hide Walk, Visited, Grown;
  }

  /** Where every place is held already, nothing is cached. */
  lemma {:induction false} VisitedHeld(t: Tree, find: Finder, pos: seq<string>, toks: seq<string>)
    requires HEAD in t && ChildrenKnow(t) && NodeAt(t, pos + toks).Some? && NodeAt(t, pos).Some? && Plain(toks)
    ensures forall q <- Visited(t, find, pos, toks) :: NodeAt(t, q).Some?
    decreases |toks|
  {
    if toks != [] {
      assert (pos + toks)[..|pos| + 1] == pos + [toks[0]];
      assert pos + [toks[0]] + toks[1..] == pos + toks;
      FrontNode(t, pos + toks, |pos| + 1);
      VisitedHeld(t, find, pos + [toks[0]], toks[1..]);
    }
  }
}
