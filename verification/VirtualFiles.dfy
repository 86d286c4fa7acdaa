/**
 The virtual file system's node tree as the kernel updates it: lookup, caching, path resolution and path printing.
 */
module VirtualFiles {
  import opened Options
  import opened PathStrings
  import opened FileTrees
  import opened PathLookup

  class FileSystem {
    const find: Finder
    var nodes: Tree
    /** The number of the next node. */
    var count: nat

    ghost predicate Valid()
      reads this
    {
      Linked(nodes) && (forall n <- nodes :: n < count) && BearsName()
    }

    /** Drivers answer with nodes that bear the name asked for. */
    ghost predicate BearsName() {
      forall d, name :: find(d, name).Some? ==> find(d, name).value.name == name
    }

    /** vfs_install: the root alone. */
    constructor (find: Finder, root: File)
      requires forall d, name :: find(d, name).Some? ==> find(d, name).value.name == name
      ensures Valid() && this.find == find && nodes == map[HEAD := Node(root, None, [])]
    {
      this.find := find;
      nodes := map[HEAD := Node(root, None, [])];
      count := 1;
    }

    /** get_child. */
    method GetChild(parent: nat, name: string) returns (child: Option<nat>)
      requires Valid() && parent in nodes
      ensures child == Child(nodes, parent, name)
    {
      KidsIn(nodes, parent);
      var kids := nodes[parent].children;
      var i := 0;
      while i < |kids|
        invariant 0 <= i <= |kids| && Named(nodes, kids, name) == Named(nodes, kids[i..], name)
      {
        if nodes[kids[i]].file.name == name {
          return Some(kids[i]);
        }
        i := i + 1;
      }
      child := None;
    }

    /** cache_node, which is tree_insert_child below an existing node. */
    method CacheNode(parent: nat, file: File) returns (n: nat)
      requires Valid() && parent in nodes && Child(nodes, parent, file.name) == None
      modifies this
      ensures Valid() && n == old(count) && n !in old(nodes) && nodes == Insert(old(nodes), parent, n, file)
    {
      hide Linked, Named, BearsName;
      n := count;
      InsertLinked(nodes, parent, n, file);
      nodes := nodes[parent := nodes[parent].(children := nodes[parent].children + [n])];
      nodes := nodes[n := Node(file, Some(parent), [])];
      count := count + 1;
    }

    /** tree_remove, for a node below the head. */
    method Remove(n: nat)
      requires Valid() && n in nodes && n != HEAD && Attached(nodes, n)
      modifies this
      ensures Valid() && Detachable(old(nodes), n) && nodes == Detach(old(nodes), n)
    {
      hide Linked, BearsName, Without;
      Parts(nodes);
      DetachLinked(nodes, n);
      var parent := nodes[n].parent.value;
      var kids := RemoveEntry(nodes[parent].children, n);
      nodes := nodes[parent := nodes[parent].(children := kids)][n := nodes[n].(parent := None)];
    }

    /** The loop of tree_remove over the parent's children. */
    static method RemoveEntry(kids: seq<nat>, n: nat) returns (rest: seq<nat>)
      ensures rest == Without(kids, n)
    {
      hide Without;
      var i := 0;
      WithoutStep(kids, n);
      assert kids[..0] == [] && kids[0..] == kids;
      while i < |kids| && kids[i] != n
        invariant 0 <= i <= |kids| && kids[..i] + Without(kids[i..], n) == Without(kids, n)
      {
        WithoutStep(kids[i..], n);
        assert kids[i..][1..] == kids[i + 1..] && kids[..i + 1] == kids[..i] + [kids[i]];
        i := i + 1;
      }
      WithoutStep(kids[i..], n);
      rest := kids;
      if i < |kids| {
        assert kids[i..][1..] == kids[i + 1..];
        rest := kids[..i] + kids[i + 1..];
      }
    }

    /** tree_find_child: depth first, the node that holds a file. */
    method FindChild(node: nat, file: File) returns (r: Option<nat>)
      requires Valid() && node in nodes
      ensures r.Some? ==> r.value in nodes && Under(nodes, node, r.value) && nodes[r.value].file == file
      ensures r.None? ==> forall n | n in nodes && Under(nodes, node, n) :: nodes[n].file != file
      decreases count - node
    {
      hide Linked, BearsName, Under;
      Parts(nodes);
      if nodes[node].file == file {
        UnderSelf(nodes, node);
        return Some(node);
      }
      KidsIn(nodes, node);
      var kids := nodes[node].children;
      for i := 0 to |kids|
        invariant forall k, n | 0 <= k < i && n in nodes && Under(nodes, kids[k], n) :: nodes[n].file != file
      {
        var other := kids[i];
        UnderSelf(nodes, other);
        UnderParent(nodes, node, other, other);
        if nodes[other].file == file {
          return Some(other);
        }
        r := FindChild(other, file);
        if r.Some? {
          UnderParent(nodes, node, other, r.value);
          return;
        }
      }
      forall n | n in nodes && Under(nodes, node, n)
        ensures nodes[n].file != file
      {
        if n != node {
          var k := UnderSomeChild(nodes, node, n);
        }
      }
      r := None;
    }

    /** The part of resolve_path that goes from a directory to the child of a name, asking the driver for what the tree
        does not hold.  The outcome is given when the walk ends here. */
    method Descend(current: nat, name: string, last: bool, ghost pos: seq<string>)
        returns (child: Option<nat>, outcome: Option<Outcome>)
      requires Valid() && NodeAt(nodes, pos) == Some(current)
      modifies this
      ensures Valid() && Grown(old(nodes), nodes, find, if child.Some? then {pos + [name]} else {})
      ensures NodeAt(old(nodes), pos + [name]).Some? ==> nodes == old(nodes)
      ensures child.Some? <==> FileAt(old(nodes), find, pos + [name]).Some?
      ensures child.Some? ==> NodeAt(nodes, pos + [name]) == child
      ensures child.None? ==> nodes == old(nodes)
      ensures child.None? ==>
        outcome ==
          if last then Some(Creatable(nodes[current].file, name))
          else if nodes[current].file.findable then Some(NotFound)
          else None
      ensures outcome.Some? ==> child.None?
    {
      hide Linked, Named, BearsName;
      assert (pos + [name])[..|pos|] == pos;
      FoundHasPath(nodes, pos);
      child := GetChild(current, name);
      GrownSelf(nodes, find, pos + [name]);
      if child.Some? {
        return child, None;
      }
      if nodes[current].file.findable {
        var file := find(nodes[current].file, name);
        if file.Some? {
          assert file.value.name == name by { NameBorne(nodes[current].file, name); }
          var n := CacheNode(current, file.value);
          CachedGrown(old(nodes), current, n, file.value, find, pos);
          return Some(n), None;
        }
        return None, Some(if last then Creatable(nodes[current].file, name) else NotFound);
      }
      return None, if last then Some(Creatable(nodes[current].file, name)) else None;
    }

    /** One call of strtok_r with "/", and the text of the token it gives. */
    static method NextComponent(a: array<char>, str: Option<nat>, save: Option<nat>)
        returns (name: Option<string>, next: Option<nat>)
      requires Holds(a[..], str) && Holds(a[..], save)
      modifies a
      ensures Holds(a[..], next)
      ensures var left := old(Left(a[..], if str.Some? then str else save, "/"));
        if left == [] then name == None && Left(a[..], next, "/") == []
        else name == Some(left[0]) && Left(a[..], next, "/") == left[1..]
    {
      hide Text, Components;
      var token;
      token, next := StrtokR(a, str, save, "/");
      if token == None {
        return None, next;
      }
      name := Some(Text(a[..], token.value));
    }

    /** The body of resolve_path's loop: one component. */
    method Advance(current: Option<nat>, name: string, last: bool, ghost t: Tree, ghost all: seq<string>,
        ghost pos: seq<string>, ghost rest: seq<string>, ghost seen: set<seq<string>>)
      returns (next: Option<nat>, outcome: Option<Outcome>, ghost pos': seq<string>, ghost seen': set<seq<string>>)
      requires Valid() && Linked(t) && Way(t, nodes, find, all, current, pos, rest, seen)
      requires rest != [] && name == rest[0] && (last <==> |rest| == 1)
      modifies this
      ensures Valid() && Grown(t, nodes, find, seen') && ((forall q <- seen' :: NodeAt(t, q).Some?) ==> nodes == t)
      ensures outcome.Some? ==> outcome.value == Walk(t, find, [], all) && Visited(t, find, [], all) == seen'
      ensures outcome.None? ==> Way(t, nodes, find, all, next, pos', rest[1..], seen')
    {
      hide Linked, BearsName, Grown, Visited, Walk, Goes, NodeAt, FileAt, ParentsKnow, ChildrenKnow;
      pos', seen' := pos, seen;
      if name == UP {
        if current == None {
          WayNull(t, nodes, find, all, pos, rest, seen);
          return None, Some(NullRead), pos, seen;
        }
        if current == Some(HEAD) {
          WayEnds(t, nodes, find, all, current, pos, rest, seen);
          return None, Some(Found(nodes[HEAD].file)), pos, seen;
        }
        WayUp(t, nodes, find, all, current.value, pos, rest, seen);
        return nodes[current.value].parent, None, pos[..|pos| - 1], seen;
      } else if name == HERE {
        WayHere(t, nodes, find, all, current, pos, rest, seen);
        return current, None, pos, seen;
      }
      if current == None {
        WayNull(t, nodes, find, all, pos, rest, seen);
        return None, Some(NullRead), pos, seen;
      }
      WayAt(t, nodes, find, all, current.value, pos, rest, seen);
      next, outcome := Descend(current.value, name, last, pos);
      if next.Some? {
        WayDown(t, old(nodes), nodes, find, all, current.value, next.value, pos, rest, seen);
        pos', seen' := pos + [name], seen + {pos + [name]};
      } else {
        WayStuck(t, nodes, find, all, current.value, pos, rest, seen);
      }
    }

    /** strdup. */
    static method Copy(path: string) returns (a: array<char>)
      requires NUL !in path
      ensures fresh(a) && Holds(a[..], Some(0)) && Text(a[..], 0) == path
    {
      a := new char[|path| + 1](i requires 0 <= i <= |path| => if i < |path| then path[i] else NUL);
      TextOf(path, a[..], 0);
    }

    /** resolve_path for a path that starts with a slash: what lookup without a cache gives, and nothing is cached but
        the missing nodes of the path. */
    method ResolvePath(path: string) returns (outcome: Outcome)
      requires Valid() && path != "" && path[0] == '/' && NUL !in path
      modifies this
      ensures Valid() && outcome == Lookup(old(nodes), find, path)
      ensures Grown(old(nodes), nodes, find, Reached(old(nodes), find, path))
      ensures (forall q <- Reached(old(nodes), find, path) :: NodeAt(old(nodes), q).Some?) ==> nodes == old(nodes)
    {
      hide Linked, BearsName, Grown, Visited, Walk, Goes, Text, Components, NodeAt, FileAt, ParentsKnow, ChildrenKnow;
      Parts(nodes);
      if path == "/" {
        GrownSelf(nodes, find, []);
        return Found(nodes[HEAD].file);
      }
      var a := Copy(path);
      ghost var t, all := nodes, Components(path, "/");
      var pch, save := NextComponent(a, Some(0), None);
      WayStarts(t, find, all);
      var current := Some(HEAD);
      ghost var pos: seq<string>, rest, seen := [], all, {};
      if pch == None {
        WayEnds(t, nodes, find, all, current, pos, rest, seen);
        return NotFound;
      }
      while pch.Some?
        invariant Valid() && Holds(a[..], save) && fresh(a)
        invariant pch.Some? ==> rest == [pch.value] + Left(a[..], save, "/")
        invariant pch.None? ==> rest == []
        invariant Way(t, nodes, find, all, current, pos, rest, seen)
        decreases |rest|
      {
        var name := pch.value;
        pch, save := NextComponent(a, None, save);
        var outcome';
        current, outcome', pos, seen := Advance(current, name, pch == None, t, all, pos, rest, seen);
        if outcome'.Some? {
          return outcome'.value;
        }
        rest := rest[1..];
      }
      WayEnds(t, nodes, find, all, current, pos, rest, seen);
      outcome := if current.Some? then Found(nodes[current.value].file) else NotFound;
    }

    /** Resolving a path again gives the same file and caches nothing more. */
    method ResolveTwice(path: string) returns (first: Outcome, second: Outcome)
      requires Valid() && path != "" && path[0] == '/' && NUL !in path
      modifies this
      ensures Valid() && first == second == Lookup(old(nodes), find, path)
      ensures Grown(old(nodes), nodes, find, Reached(old(nodes), find, path))
    {
      hide Linked, BearsName, Grown, Lookup, NodeAt, Reached;
      ghost var t := nodes;
      first := ResolvePath(path);
      ghost var u := nodes;
      LookupUnchanged(t, u, find, Reached(t, find, path), path);
      SecondReach(t, u, find, path);
      second := ResolvePath(path);
      assert nodes == u;
    }

    /** The climb of get_full_path: the names from the node up to the one below the root. */
    method NamesUp(n: nat) returns (names: seq<string>)
      requires Valid() && n in nodes && n != HEAD && Attached(nodes, n)
      requires forall m | m in nodes && m != HEAD :: nodes[m].file != nodes[HEAD].file
      ensures PathOf(nodes, n) == Reversed(names)
    {
      hide Linked, BearsName, NamesDiffer, ChildrenKnow;
      Parts(nodes);
      names := [nodes[n].file.name];
      assert names[1..] == [] && [] + names == names;
      var parent := nodes[n].parent.value;
      while nodes[parent].parent.Some? && nodes[parent].file != nodes[HEAD].file
        invariant parent in nodes && Attached(nodes, parent)
        invariant PathOf(nodes, n) == PathOf(nodes, parent) + Reversed(names)
        decreases parent
      {
        ReversedAppend(names, nodes[parent].file.name);
        names := names + [nodes[parent].file.name];
        parent := nodes[parent].parent.value;
      }
      assert PathOf(nodes, parent) == [];
    }

    /** get_full_path of a file that is not the root: its node is looked up, the names are collected upwards and written
        from the last to the first. */
    method FullPath(file: File) returns (path: Option<string>, ghost n: nat)
      requires Valid() && file != nodes[HEAD].file
      requires forall m | m in nodes && m != HEAD :: nodes[m].file != nodes[HEAD].file
      ensures path.None? ==> forall m | m in nodes && Under(nodes, HEAD, m) :: nodes[m].file != file
      ensures path.Some? ==>
        n in nodes && Attached(nodes, n) && nodes[n].file == file && path.value == Join(PathOf(nodes, n))
    {
      hide Linked, BearsName, PathOf, Join;
      Parts(nodes);
      n := 0;
      var found := FindChild(HEAD, file);
      if found == None {
        return None, 0;
      }
      n := found.value;
      UnderHead(nodes, n);
      var names := NamesUp(found.value);
      var text := "";
      var i := |names|;
      JoinNone();
      while i > 0
        invariant 0 <= i <= |names| && text == Join(Reversed(names[i..]))
      {
        i := i - 1;
        assert names[i..][1..] == names[i + 1..];
        JoinAppend(Reversed(names[i + 1..]), names[i]);
        text := text + "/" + names[i];
      }
      assert names[0..] == names;
      path := Some(text);
    }

    /** The path printed for a file resolves to that file, and nothing is cached on the way. */
    method PrintAndResolve(file: File) returns (path: Option<string>, outcome: Outcome)
      requires Valid() && file != nodes[HEAD].file && Spellable(nodes)
      requires forall m | m in nodes :: NUL !in nodes[m].file.name
      requires forall m | m in nodes && m != HEAD :: nodes[m].file != nodes[HEAD].file
      modifies this
      ensures Valid() && nodes == old(nodes)
      ensures path.Some? ==> outcome == Found(file)
      ensures path.None? ==> forall m | m in nodes && Under(nodes, HEAD, m) :: nodes[m].file != file
    {
      hide Linked, BearsName, Lookup, NodeAt, Reached, Spellable;
      Parts(nodes);
      outcome := NotFound;
      ghost var n;
      path, n := FullPath(file);
      if path.Some? {
        UnderHead(nodes, n);
        PathRoundTrip(nodes, find, n);
        PathHeld(nodes, find, n);
        outcome := ResolvePath(path.value);
      }
    }

    lemma {:induction false} NameBorne(d: File, name: string)
      requires BearsName() && find(d, name).Some?
      ensures find(d, name).value.name == name
    {
    }
  }

  lemma {:induction false} WithoutStep(kids: seq<nat>, n: nat)
    ensures Without(kids, n) ==
      if kids == [] then [] else if kids[0] == n then kids[1..] else [kids[0]] + Without(kids[1..], n)
  {
  }

  lemma {:induction false} UnderSelf(t: Tree, n: nat)
    requires n in t && ParentsKnow(t)
    ensures Under(t, n, n)
  {
  }

  lemma {:induction false} UnderParent(t: Tree, p: nat, k: nat, n: nat)
    requires k in t && n in t && p in t && ParentsKnow(t) && t[k].parent == Some(p) && Under(t, k, n)
    ensures Under(t, p, n)
    decreases n
  {
    if n == k {
      UnderSelf(t, p);
    } else {
      UnderParent(t, p, k, t[n].parent.value);
    }
  }

  lemma {:induction false} UnderSomeChild(t: Tree, p: nat, n: nat) returns (i: nat)
    requires p in t && n in t && ParentsKnow(t) && n != p && Under(t, p, n)
    ensures i < |t[p].children| && t[p].children[i] in t && Under(t, t[p].children[i], n)
    decreases n
  {
    var m := t[n].parent.value;
    if m == p {
      i :| 0 <= i < |t[p].children| && t[p].children[i] == n;
    } else {
      i := UnderSomeChild(t, p, m);
    }
  }

  /** Nothing cached: the tree as it is, and any place that was there already. */
  lemma {:induction false} GrownSelf(t: Tree, find: Finder, q: seq<string>)
    requires Linked(t)
    ensures Grown(t, t, find, {}) && (NodeAt(t, q).Some? ==> Grown(t, t, find, {q}) && FileAt(t, find, q).Some?)
  {
  }

  /** One node cached. */
  lemma {:induction false} CachedGrown(t: Tree, p: nat, n: nat, file: File, find: Finder, pos: seq<string>)
    requires Insertable(t, p, n, file) && Linked(Insert(t, p, n, file)) && NodeAt(t, pos) == Some(p)
    requires t[p].file.findable && find(t[p].file, file.name) == Some(file)
    ensures Grown(t, Insert(t, p, n, file), find, {pos + [file.name]})
    ensures NodeAt(Insert(t, p, n, file), pos + [file.name]) == Some(n) && NodeAt(t, pos + [file.name]) == None
    ensures FileAt(t, find, pos + [file.name]) == Some(file)
  {
    hide Linked, FileAt, NodeAt, Named;
    var u := Insert(t, p, n, file);
    Parts(t);
    Parts(u);
    FoundHasPath(t, pos);
    forall q
      ensures NodeAt(u, q) == if q == pos + [file.name] then Some(n) else NodeAt(t, q)
      ensures FileAt(u, find, q) == FileAt(t, find, q)
      ensures NodeAt(t, pos + [file.name]) == None
    {
      InsertAddsOne(t, p, n, file, q);
      CachingIsTransparent(t, p, n, file, find, q);
    }
    HeldFile(u, find, pos + [file.name]);
  }

  lemma {:induction false} HeldFile(t: Tree, find: Finder, q: seq<string>)
    requires HEAD in t && ChildrenKnow(t) && NodeAt(t, q).Some?
    ensures FileAt(t, find, q) == Some(t[NodeAt(t, q).value].file)
  {
  }

  lemma {:induction false} TextOf(path: string, a: seq<char>, i: nat)
    requires a == path + [NUL] && NUL !in path && i <= |path|
    ensures Text(a, i) == path[i..]
    decreases |path| - i
  {
    if i < |path| {
      assert a[i] == path[i] && path[i] in path;
      TextOf(path, a, i + 1);
    }
  }

  lemma {:induction false} SecondReach(t: Tree, u: Tree, find: Finder, path: string)
    requires Linked(t) && Grown(t, u, find, Reached(t, find, path))
    ensures Linked(u) && Reached(u, find, path) == Reached(t, find, path)
    ensures forall q <- Reached(u, find, path) :: NodeAt(u, q).Some?
    ensures forall v | Grown(u, v, find, Reached(u, find, path)) :: Grown(t, v, find, Reached(t, find, path))
  {
    hide Walk, Visited, Components;
    SameFilesSameWalk(t, u, find, [], Components(path, "/"));
    forall v | Grown(u, v, find, Reached(u, find, path))
      ensures Grown(t, v, find, Reached(t, find, path))
    {
      GrownCompose(t, u, v, find, Reached(t, find, path), Reached(t, find, path));
      assert Reached(t, find, path) + Reached(t, find, path) == Reached(t, find, path);
    }
  }

  function Reversed(names: seq<string>): seq<string> {
    if names == [] then [] else Reversed(names[1..]) + [names[0]]
  }

  lemma {:induction false} ReversedAppend(names: seq<string>, name: string)
    ensures Reversed(names + [name]) == [name] + Reversed(names)
    decreases |names|
  {
    if names == [] {
      assert (names + [name])[1..] == [];
    } else {
      assert (names + [name])[1..] == names[1..] + [name];
      ReversedAppend(names[1..], name);
    }
  }

  lemma {:induction false} JoinNone()
    ensures Join([]) == ""
  {
  }

  lemma {:induction false} UnderHead(t: Tree, n: nat)
    requires n in t && ParentsKnow(t) && HEAD in t && t[HEAD].parent == None
    ensures Under(t, HEAD, n) <==> Attached(t, n)
    decreases n
  {
    if t[n].parent.Some? {
      UnderHead(t, t[n].parent.value);
    }
  }

  lemma {:induction false} PathHeld(t: Tree, find: Finder, n: nat)
    requires Linked(t) && Spellable(t) && n in t && n != HEAD && Attached(t, n) &&
      forall m | m in t :: NUL !in t[m].file.name
    ensures Join(PathOf(t, n)) != "" && Join(PathOf(t, n))[0] == '/' && NUL !in Join(PathOf(t, n))
    ensures forall q <- Reached(t, find, Join(PathOf(t, n))) :: NodeAt(t, q).Some?
  {
    var names := PathOf(t, n);
    PathSpellable(t, n);
    PathLeadsTo(t, n);
    ComponentsOfJoin(names);
    assert [] + names == names;
    VisitedHeld(t, find, [], names);
    NamesOfTree(t, n);
    JoinClean(names);
  }

  lemma {:induction false} NamesOfTree(t: Tree, n: nat)
    requires n in t && ParentsKnow(t) && forall m | m in t :: NUL !in t[m].file.name
    ensures forall name <- PathOf(t, n) :: NUL !in name
    decreases n
  {
    if t[n].parent.Some? {
      NamesOfTree(t, t[n].parent.value);
    }
  }

  lemma {:induction false} JoinClean(names: seq<string>)
    requires forall name <- names :: NUL !in name
    ensures NUL !in Join(names)
    decreases |names|
  {
    if names != [] {
      JoinClean(names[1..]);
    }
  }
}
