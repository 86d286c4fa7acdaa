/**
 The tree of file nodes the kernel keeps: lookups by name, the paths of nodes, insertion and removal.
 Tree nodes are numbered in order of creation; the head is node 0.
 */
module FileTrees {
  import opened Options

  /** A file node, told apart from others by its id; `findable` says that its driver has a find_dir operation. */
  datatype File = File(id: nat, name: string, findable: bool)

  datatype Node = Node(file: File, parent: Option<nat>, children: seq<nat>)

  type Tree = map<nat, Node>

  /** What a driver's find_dir answers for a directory and a name. */
  type Finder = (File, string) -> Option<File>

  const HEAD: nat := 0

  /** Children and parent pointers agree, and siblings differ in name. */
  ghost predicate Linked(t: Tree) {
    HEAD in t && t[HEAD].parent == None && ParentsKnow(t) && ChildrenKnow(t) && NamesDiffer(t)
  }

  ghost predicate ParentsKnow(t: Tree) {
    forall n {:trigger t[n].parent} | n in t && t[n].parent.Some? ::
      t[n].parent.value < n && t[n].parent.value in t && n in t[t[n].parent.value].children
  }

  ghost predicate ChildrenKnow(t: Tree) {
    forall n, i {:trigger t[n].children[i]} | n in t && 0 <= i < |t[n].children| ::
      t[n].children[i] in t && t[t[n].children[i]].parent == Some(n)
  }

  ghost predicate NamesDiffer(t: Tree)
    requires ChildrenKnow(t)
  {
    forall n, i, j {:trigger t[n].children[i], t[n].children[j]} | n in t && 0 <= i < j < |t[n].children| ::
      t[t[n].children[i]].file.name != t[t[n].children[j]].file.name
  }

  /** get_child as a function: the first of the children with that name. */
  function Named(t: Tree, kids: seq<nat>, name: string): (r: Option<nat>)
    requires forall k <- kids :: k in t
    ensures r.Some? ==> r.value in kids && t[r.value].file.name == name
    ensures r.None? ==> forall k <- kids :: t[k].file.name != name
  {
    if kids == [] then None
    else if t[kids[0]].file.name == name then Some(kids[0])
    else Named(t, kids[1..], name)
  }

  function Child(t: Tree, n: nat, name: string): (r: Option<nat>)
    requires n in t && forall k <- t[n].children :: k in t
  {
    Named(t, t[n].children, name)
  }

  /** The node that the names lead to from the head. */
  function NodeAt(t: Tree, names: seq<string>): (r: Option<nat>)
    requires HEAD in t && ChildrenKnow(t)
    ensures r.Some? ==> r.value in t
    decreases |names|
  {
    if names == [] then Some(HEAD)
    else match NodeAt(t, names[..|names| - 1])
      case None => None
      case Some(p) => Child(t, p, names[|names| - 1])
  }

  /** The node hangs from the head. */
  predicate Attached(t: Tree, n: nat)
    requires n in t && ParentsKnow(t)
    decreases n
  {
    match t[n].parent
    case None => n == HEAD
    case Some(p) => Attached(t, p)
  }

  /** The names on the way down to a node. */
  function PathOf(t: Tree, n: nat): seq<string>
    requires n in t && ParentsKnow(t)
    decreases n
  {
    match t[n].parent
    case None => []
    case Some(p) => PathOf(t, p) + [t[n].file.name]
  }

  /** n is a or below it. */
  predicate Under(t: Tree, a: nat, n: nat)
    requires n in t && ParentsKnow(t)
    decreases n
  {
    n == a || match t[n].parent
      case None => false
      case Some(p) => Under(t, a, p)
  }

  /** Among its siblings a node is the one of its name. */
  lemma {:induction false} ChildIs(t: Tree, p: nat, k: nat)
    requires Linked(t) && p in t && k in t[p].children
    ensures k in t && Child(t, p, t[k].file.name) == Some(k) && t[k].parent == Some(p)
  {
    var i :| 0 <= i < |t[p].children| && t[p].children[i] == k;
    var r := Child(t, p, t[k].file.name);
    if r.Some? {
      var j :| 0 <= j < |t[p].children| && t[p].children[j] == r.value;
    }
  }

  /** A node's path leads to it. */
  lemma {:induction false} PathLeadsTo(t: Tree, n: nat)
    requires Linked(t) && n in t && Attached(t, n)
    ensures NodeAt(t, PathOf(t, n)) == Some(n)
    decreases n
  {
    if t[n].parent.Some? {
      var p := t[n].parent.value;
      PathLeadsTo(t, p);
      ChildIs(t, p, n);
      assert PathOf(t, n)[..|PathOf(t, n)| - 1] == PathOf(t, p);
    }
  }

  /** And the node found along a path has that path. */
  lemma {:induction false} FoundHasPath(t: Tree, names: seq<string>)
    requires Linked(t) && NodeAt(t, names).Some?
    ensures var n := NodeAt(t, names).value; Attached(t, n) && PathOf(t, n) == names && (n == HEAD <==> names == [])
    decreases |names|
  {
    if names != [] {
      var p := NodeAt(t, names[..|names| - 1]).value;
      FoundHasPath(t, names[..|names| - 1]);
      var n := Child(t, p, names[|names| - 1]).value;
      ChildIs(t, p, n);
      assert names == names[..|names| - 1] + [names[|names| - 1]];
    }
  }

  /** The file the names lead to, asking the drivers for what the tree does not hold: lookup without any caching. */
  function FileAt(t: Tree, find: Finder, names: seq<string>): Option<File>
    requires HEAD in t && ChildrenKnow(t)
    decreases |names|
  {
    match NodeAt(t, names)
    case Some(n) => Some(t[n].file)
    case None =>
      if names == [] then None
      else match FileAt(t, find, names[..|names| - 1])
        case None => None
        case Some(d) => if d.findable then find(d, names[|names| - 1]) else None
  }

  // ---- tree_insert_child ----

  function Insert(t: Tree, p: nat, n: nat, file: File): Tree
    requires p in t
  {
    t[p := t[p].(children := t[p].children + [n])][n := Node(file, Some(p), [])]
  }

  ghost predicate Insertable(t: Tree, p: nat, n: nat, file: File) {
    Linked(t) && p in t && n !in t && p < n && Child(t, p, file.name) == None
  }

  lemma {:induction false} InsertLinked(t: Tree, p: nat, n: nat, file: File)
    requires Insertable(t, p, n, file)
    ensures Linked(Insert(t, p, n, file))
  {
    var u := Insert(t, p, n, file);
    InsertParents(t, p, n, file);
    InsertChildren(t, p, n, file);
    InsertNames(t, p, n, file);
  }

  lemma {:induction false} InsertParents(t: Tree, p: nat, n: nat, file: File)
    requires Insertable(t, p, n, file)
    ensures ParentsKnow(Insert(t, p, n, file))
  {
    var u := Insert(t, p, n, file);
    assert u[p].children[|t[p].children|] == n;
    forall m | m in u && u[m].parent.Some?
      ensures u[m].parent.value < m && u[m].parent.value in u && m in u[u[m].parent.value].children
    {
      if m != n {
        assert t[m].parent == u[m].parent;
      }
    }
  }

  lemma {:induction false} InsertChildren(t: Tree, p: nat, n: nat, file: File)
    requires Insertable(t, p, n, file)
    ensures ChildrenKnow(Insert(t, p, n, file))
  {
    var u := Insert(t, p, n, file);
    forall m, i | m in u && 0 <= i < |u[m].children|
      ensures u[m].children[i] in u && u[u[m].children[i]].parent == Some(m)
    {
      if m == p && i == |t[p].children| {
      } else {
        assert u[m].children[i] == t[m].children[i];
      }
    }
  }

  lemma {:induction false} InsertNames(t: Tree, p: nat, n: nat, file: File)
    requires Insertable(t, p, n, file) && ChildrenKnow(Insert(t, p, n, file))
    ensures NamesDiffer(Insert(t, p, n, file))
  {
    var u := Insert(t, p, n, file);
    forall m, i, j | m in u && 0 <= i < j < |u[m].children|
      ensures u[u[m].children[i]].file.name != u[u[m].children[j]].file.name
    {
      assert u[m].children[i] == t[m].children[i];
      if m == p && j == |t[p].children| {
        assert t[p].children[i] in t[p].children;
      } else {
        assert u[m].children[j] == t[m].children[j];
      }
    }
  }

  lemma {:induction false} NamedSame(t: Tree, u: Tree, kids: seq<nat>, name: string)
    requires forall k <- kids :: k in t && k in u && t[k].file == u[k].file
    ensures Named(t, kids, name) == Named(u, kids, name)
    decreases |kids|
  {
    if kids != [] {
      NamedSame(t, u, kids[1..], name);
    }
  }

  lemma {:induction false} NamedAppend(t: Tree, kids: seq<nat>, n: nat, name: string)
    requires n in t && forall k <- kids :: k in t
    ensures Named(t, kids + [n], name) ==
      if Named(t, kids, name).Some? then Named(t, kids, name) else if t[n].file.name == name then Some(n) else None
    decreases |kids|
  {
    if kids == [] {
      assert kids + [n] == [n];
      assert Named(t, [n][1..], name) == None;
    } else {
      assert (kids + [n])[1..] == kids[1..] + [n];
      NamedAppend(t, kids[1..], n, name);
    }
  }

  /** Lookups among children before and after. */
  lemma {:induction false} InsertChild(t: Tree, p: nat, n: nat, file: File, m: nat, name: string)
    requires Insertable(t, p, n, file) && Linked(Insert(t, p, n, file)) && m in t
    ensures Child(Insert(t, p, n, file), m, name) == if m == p && name == file.name then Some(n) else Child(t, m, name)
    ensures Child(Insert(t, p, n, file), n, name) == None
  {
    hide Linked, Named;
    var u := Insert(t, p, n, file);
    KidsIn(t, m);
    NamedSame(t, u, t[m].children, name);
    if m == p {
      NamedAppend(u, t[p].children, n, name);
    }
    NoKids(u, name);
  }

  lemma {:induction false} KidsIn(t: Tree, m: nat)
    requires Linked(t) && m in t
    ensures forall k <- t[m].children :: k in t && t[k].parent == Some(m)
  {
  }

  lemma {:induction false} NoKids(t: Tree, name: string)
    ensures Named(t, [], name) == None
  {
  }

  /** Insertion adds one path and changes no other. */
  lemma {:induction false} InsertAddsOne(t: Tree, p: nat, n: nat, file: File, names: seq<string>)
    requires Insertable(t, p, n, file) && Linked(Insert(t, p, n, file)) && Attached(t, p)
    ensures NodeAt(Insert(t, p, n, file), names) ==
      if names == PathOf(t, p) + [file.name] then Some(n) else NodeAt(t, names)
    ensures NodeAt(t, PathOf(t, p) + [file.name]) == None
    decreases |names|
  {
    var u := Insert(t, p, n, file);
    PathLeadsTo(t, p);
    assert (PathOf(t, p) + [file.name])[..|PathOf(t, p)|] == PathOf(t, p);
    if names != [] {
      var front, last := names[..|names| - 1], names[|names| - 1];
      assert names == front + [last];
      InsertAddsOne(t, p, n, file, front);
      if front == PathOf(t, p) + [file.name] {
        InsertChild(t, p, n, file, p, last);
        assert NodeAt(t, front) == None;
      } else if NodeAt(t, front).Some? {
        var m := NodeAt(t, front).value;
        FoundHasPath(t, front);
        InsertChild(t, p, n, file, m, last);
      }
    }
  }

  /** A node cached under a name it does not bear is not held under that name: the next resolution asks the driver again
      and caches another. */
  lemma {:induction false} MisnamedNotHeld(t: Tree, p: nat, n: nat, file: File, name: string)
    requires Insertable(t, p, n, file) && Linked(Insert(t, p, n, file)) && Attached(t, p)
    requires NodeAt(t, PathOf(t, p) + [name]) == None
    ensures NodeAt(Insert(t, p, n, file), PathOf(t, p) + [name]).Some? <==> file.name == name
  {
    InsertAddsOne(t, p, n, file, PathOf(t, p) + [name]);
    if PathOf(t, p) + [name] == PathOf(t, p) + [file.name] {
      assert (PathOf(t, p) + [name])[|PathOf(t, p)|] == (PathOf(t, p) + [file.name])[|PathOf(t, p)|];
    }
  }

  /** Caching what find_dir answered changes no lookup: whatever path is asked for, the file is the same. */
  lemma {:induction false} CachingIsTransparent(t: Tree, p: nat, n: nat, file: File, find: Finder, names: seq<string>)
    requires Insertable(t, p, n, file) && Linked(Insert(t, p, n, file)) && Attached(t, p)
    requires t[p].file.findable && find(t[p].file, file.name) == Some(file)
    ensures FileAt(Insert(t, p, n, file), find, names) == FileAt(t, find, names)
    decreases |names|
  {
    InsertAddsOne(t, p, n, file, names);
    if names != [] {
      CachingIsTransparent(t, p, n, file, find, names[..|names| - 1]);
      if names == PathOf(t, p) + [file.name] {
        PathLeadsTo(t, p);
        assert names[..|names| - 1] == PathOf(t, p);
      }
    }
  }

  // ---- tree_remove ----

  function Without(kids: seq<nat>, n: nat): seq<nat> {
    if kids == [] then [] else if kids[0] == n then kids[1..] else [kids[0]] + Without(kids[1..], n)
  }

  /** The node leaves its parent's children and keeps its own. */
  function Detach(t: Tree, n: nat): Tree
    requires n in t && t[n].parent.Some? && t[n].parent.value in t
  {
    var p := t[n].parent.value;
    t[p := t[p].(children := Without(t[p].children, n))][n := t[n].(parent := None)]
  }

  ghost predicate DistinctNames(t: Tree, kids: seq<nat>) {
    (forall k <- kids :: k in t) && forall i, j | 0 <= i < j < |kids| :: t[kids[i]].file.name != t[kids[j]].file.name
  }

  lemma {:induction false} WithoutKeeps(t: Tree, kids: seq<nat>, n: nat, name: string)
    requires DistinctNames(t, kids) && n in t
    ensures forall k :: k in Without(kids, n) <==> k in kids && k != n
    ensures DistinctNames(t, Without(kids, n))
    ensures Named(t, Without(kids, n), name) ==
      if name == t[n].file.name && n in kids then None else Named(t, kids, name)
    decreases |kids|
  {
    if kids != [] {
      var rest := kids[1..];
      assert forall i | 0 <= i < |rest| :: rest[i] == kids[i + 1];
      assert forall k :: k in kids <==> k == kids[0] || k in rest;
      WithoutKeeps(t, rest, n, name);
      if kids[0] != n {
        var w := Without(rest, n);
        assert Without(kids, n) == [kids[0]] + w && ([kids[0]] + w)[1..] == w;
        forall k | k in w
          ensures t[k].file.name != t[kids[0]].file.name
        {
          var i :| 0 <= i < |rest| && rest[i] == k;
        }
      }
    }
  }

  ghost predicate Detachable(t: Tree, n: nat) {
    Linked(t) && n in t && n != HEAD && Attached(t, n) && t[n].parent.Some?
  }

  lemma {:induction false} KidsDistinct(t: Tree, p: nat)
    requires Linked(t) && p in t
    ensures DistinctNames(t, t[p].children)
  {
    KidsIn(t, p);
  }

  lemma {:induction false} DetachLinked(t: Tree, n: nat)
    requires Detachable(t, n)
    ensures Linked(Detach(t, n))
  {
    var u := Detach(t, n);
    var p := t[n].parent.value;
    KidsDistinct(t, p);
    WithoutKeeps(t, t[p].children, n, "");
    DetachParents(t, n);
    DetachChildren(t, n);
    forall m, i, j | m in u && 0 <= i < j < |u[m].children|
      ensures u[u[m].children[i]].file.name != u[u[m].children[j]].file.name
    {
      KidsDistinct(t, m);
    }
  }

  lemma {:induction false} DetachParents(t: Tree, n: nat)
    requires Detachable(t, n)
    ensures ParentsKnow(Detach(t, n))
  {
    var u := Detach(t, n);
    var p := t[n].parent.value;
    KidsDistinct(t, p);
    WithoutKeeps(t, t[p].children, n, "");
    forall m | m in u && u[m].parent.Some?
      ensures u[m].parent.value < m && u[m].parent.value in u && m in u[u[m].parent.value].children
    {
      assert t[m].parent == u[m].parent;
    }
  }

  lemma {:induction false} DetachChildren(t: Tree, n: nat)
    requires Detachable(t, n)
    ensures ChildrenKnow(Detach(t, n))
  {
    var u := Detach(t, n);
    var p := t[n].parent.value;
    KidsDistinct(t, p);
    WithoutKeeps(t, t[p].children, n, "");
    forall m, i | m in u && 0 <= i < |u[m].children|
      ensures u[m].children[i] in u && u[u[m].children[i]].parent == Some(m)
    {
      KidsIn(t, m);
      assert u[m].children[i] in u[m].children;
      assert u[m].children[i] in t[m].children;
    }
  }

  /** Removal takes away the node's path and every path through it, and changes no other. */
  lemma {:induction false} DetachCutsBranch(t: Tree, n: nat, names: seq<string>)
    requires Detachable(t, n) && Linked(Detach(t, n))
    ensures NodeAt(Detach(t, n), names) == if PathOf(t, n) <= names then None else NodeAt(t, names)
    decreases |names|
  {
    hide Linked, Named, Without;
    Parts(t);
    Parts(Detach(t, n));
    var u := Detach(t, n);
    var p := t[n].parent.value;
    if names != [] {
      var front, last := names[..|names| - 1], names[|names| - 1];
      assert names == front + [last];
      DetachCutsBranch(t, n, front);
      if PathOf(t, n) <= front {
      } else if NodeAt(t, front).Some? {
        var m := NodeAt(t, front).value;
        FoundHasPath(t, front);
        KidsDistinct(t, m);
        KidsIn(t, m);
        BranchTip(t, n, names, m);
        if m == p {
          WithoutKeeps(t, t[p].children, n, last);
          NamedSame(t, u, Without(t[p].children, n), last);
        } else {
          NamedSame(t, u, t[m].children, last);
        }
      }
    }
  }

  /** A path not cut before its last name is cut there exactly when it leads to n. */
  lemma {:induction false} BranchTip(t: Tree, n: nat, names: seq<string>, m: nat)
    requires Detachable(t, n) && names != [] && !(PathOf(t, n) <= names[..|names| - 1])
    requires NodeAt(t, names[..|names| - 1]) == Some(m)
    ensures PathOf(t, n) <= names <==> m == t[n].parent.value && names[|names| - 1] == t[n].file.name
  {
    hide NamesDiffer, ChildrenKnow;
    var front, p := names[..|names| - 1], t[n].parent.value;
    FoundHasPath(t, front);
    PathLeadsTo(t, p);
    assert names == front + [names[|names| - 1]];
    if PathOf(t, n) <= names {
      assert PathOf(t, n)[..|front|] == front && PathOf(t, p) == front;
    }
  }

  lemma {:induction false} Parts(t: Tree)
    requires Linked(t)
    ensures HEAD in t && ChildrenKnow(t) && ParentsKnow(t)
    ensures forall n | n in t && t[n].parent.Some? :: t[n].parent.value in t && t[n].parent.value < n
  {
  }
}
