/**
 The allocation table as a value: cluster chains, and what creating, truncating and deleting files does to them.
 */
module FatChains {
  type Word = w: int | 0 <= w < 0x1_0000_0000

  type Table = seq<Word>

  /** The upper four bits of an entry are reserved. */
  const LINK_LIMIT: nat := 0x1000_0000
  const LAST: Word := 0x0FFF_FFFF
  const END_OF_CHAIN: nat := 0x0FFF_FFF8
  const BAD_CLUSTER: nat := 0x0FFF_FFF7

  function Link(t: Table, c: nat): nat
    requires c < |t|
  {
    t[c] % LINK_LIMIT
  }

  /** The clusters of one file, in order, each once, the last one marked. */
  ghost predicate Chain(t: Table, s: seq<nat>) {
    s != [] && (forall i | 0 <= i < |s| :: 2 <= s[i] < |t|) && (forall i, j | 0 <= i < j < |s| :: s[i] != s[j]) &&
    (forall i | 0 <= i < |s| - 1 :: Link(t, s[i]) == s[i + 1]) && Link(t, s[|s| - 1]) >= END_OF_CHAIN
  }

  /** The files by first cluster. */
  datatype Volume = Volume(table: Table, chains: map<nat, seq<nat>>)

  /** Every file has its chain, and no two share a cluster. */
  ghost predicate Inv(v: Volume) {
    |v.table| <= BAD_CLUSTER &&
    (forall f | f in v.chains :: Chain(v.table, v.chains[f]) && v.chains[f][0] == f) &&
    (forall f, g, c | f in v.chains && g in v.chains && c in v.chains[f] && c in v.chains[g] :: f == g)
  }

  function Free(t: Table): set<nat> {
    set c | 2 <= c < |t| && t[c] == 0
  }

  function Used(chains: map<nat, seq<nat>>): set<nat> {
    set f, c | f in chains && c in chains[f] :: c
  }

  function Members(s: seq<nat>): set<nat> {
    set c | c in s
  }

  function Zeroed(t: Table, s: seq<nat>): Table {
    seq(|t|, i requires 0 <= i < |t| => if i in s then 0 else t[i])
  }

  datatype Step = Create(c: nat) | Truncate(f: nat) | Delete(f: nat)

  /** A file is created on a free cluster; a file that exists is truncated or deleted. */
  predicate Enabled(v: Volume, step: Step) {
    match step
    case Create(c) => c in Free(v.table)
    case Truncate(f) => f in v.chains && v.chains[f] != [] && f < |v.table|
    case Delete(f) => f in v.chains
  }

  function After(v: Volume, step: Step): Volume
    requires Enabled(v, step)
  {
    match step
    case Create(c) => Volume(v.table[c := LAST], v.chains[c := [c]])
    case Truncate(f) => Volume(Zeroed(v.table, v.chains[f][1..])[f := LAST], v.chains[f := [f]])
    case Delete(f) => Volume(Zeroed(v.table, v.chains[f]), v.chains - {f})
  }

  /** What a step gives back to the free clusters, and what it takes. */
  function Freed(v: Volume, step: Step): set<nat>
    requires Enabled(v, step)
  {
    match step
    case Create(c) => {}
    case Truncate(f) => Members(v.chains[f][1..])
    case Delete(f) => Members(v.chains[f])
  }

  function Taken(step: Step): set<nat> {
    match step
    case Create(c) => {c}
    case Truncate(f) => {}
    case Delete(f) => {}
  }

  lemma {:induction false} ChainEntries(t: Table, s: seq<nat>)
    requires Chain(t, s) && |t| <= BAD_CLUSTER
    ensures forall c <- s :: 2 <= c < |t| && t[c] != 0
  {
    forall c | c in s
      ensures 2 <= c < |t| && t[c] != 0
    {
      var i :| 0 <= i < |s| && s[i] == c;
      if i < |s| - 1 {
        assert Link(t, s[i]) == s[i + 1];
      }
    }
  }

  /** A chain whose entries are untouched stays a chain. */
  lemma {:induction false} ChainStays(t: Table, u: Table, s: seq<nat>)
    requires Chain(t, s) && |u| == |t| && forall c <- s :: c < |t| ==> u[c] == t[c]
    ensures Chain(u, s)
  {
    forall i | 0 <= i < |s|
      ensures Link(u, s[i]) == Link(t, s[i])
    {
      assert s[i] in s;
    }
  }

  lemma {:induction false} CreateKeeps(v: Volume, c: nat)
    requires Inv(v) && c in Free(v.table)
    ensures Inv(After(v, Create(c)))
  {
    var w := After(v, Create(c));
    forall f | f in v.chains
      ensures Chain(w.table, v.chains[f]) && c !in v.chains[f]
    {
      ChainEntries(v.table, v.chains[f]);
      ChainStays(v.table, w.table, v.chains[f]);
    }
  }

  lemma {:induction false} DeleteKeeps(v: Volume, f: nat)
    requires Inv(v) && f in v.chains
    ensures Inv(After(v, Delete(f)))
  {
    var w := After(v, Delete(f));
    forall g | g in w.chains
      ensures Chain(w.table, w.chains[g])
    {
      ChainStays(v.table, w.table, v.chains[g]);
    }
  }

  /** The first of a chain is not among the others, which are all in it. */
  lemma {:induction false} ChainTail(t: Table, s: seq<nat>)
    requires Chain(t, s)
    ensures s[0] in s && s[0] !in s[1..] && forall c :: c in s <==> c == s[0] || c in s[1..]
  {
    assert s == [s[0]] + s[1..];
  }

  lemma {:induction false} TruncateKeeps(v: Volume, f: nat)
    requires Inv(v) && Enabled(v, Truncate(f))
    ensures Inv(After(v, Truncate(f)))
  {
    var w := After(v, Truncate(f));
    ChainTail(v.table, v.chains[f]);
    forall g | g in v.chains && g != f
      ensures Chain(w.table, w.chains[g])
    {
      TruncateOther(v, f, g);
    }
    assert Chain(w.table, [f]);
    forall g, h, c | g in w.chains && h in w.chains && c in w.chains[g] && c in w.chains[h]
      ensures g == h
    {
      assert c in v.chains[g] && c in v.chains[h];
    }
  }

  lemma {:induction false} TruncateOther(v: Volume, f: nat, g: nat)
    requires Inv(v) && Enabled(v, Truncate(f)) && g in v.chains && g != f
    ensures Chain(After(v, Truncate(f)).table, v.chains[g])
  {
    hide Chain;
    ChainTail(v.table, v.chains[f]);
    ChainStays(v.table, After(v, Truncate(f)).table, v.chains[g]);
  }

  lemma {:induction false} StepKeeps(v: Volume, step: Step)
    requires Inv(v) && Enabled(v, step)
    ensures Inv(After(v, step))
  {
    match step
    case Create(c) => CreateKeeps(v, c);
    case Truncate(f) => TruncateKeeps(v, f);
    case Delete(f) => DeleteKeeps(v, f);
  }

  /** A step frees exactly what it says and takes exactly what it says. */
  lemma {:induction false} StepFrees(v: Volume, step: Step)
    requires Inv(v) && Enabled(v, step)
    ensures Free(After(v, step).table) == Free(v.table) + Freed(v, step) - Taken(step)
    ensures Freed(v, step) !! Free(v.table) && Taken(step) <= Free(v.table)
    ensures Used(After(v, step).chains) == Used(v.chains) + Taken(step) - Freed(v, step) &&
      Freed(v, step) <= Used(v.chains)
  {
    UsedNotFree(v);
    match step
    case Create(c) => CreateTakes(v, c);
    case Truncate(f) => TruncateFrees(v, f);
    case Delete(f) => DeleteFrees(v, f);
  }

  lemma {:induction false} UsedBy(chains: map<nat, seq<nat>>, f: nat, c: nat)
    requires f in chains && c in chains[f]
    ensures c in Used(chains)
  {
  }

  lemma {:induction false} OwnerOf(chains: map<nat, seq<nat>>, c: nat) returns (f: nat)
    requires c in Used(chains)
    ensures f in chains && c in chains[f]
  {
    f :| f in chains && c in chains[f];
  }

  lemma {:induction false} CreateTakes(v: Volume, c: nat)
    requires Inv(v) && c in Free(v.table)
    ensures Free(v.table[c := LAST]) == Free(v.table) - {c}
    ensures Used(v.chains[c := [c]]) == Used(v.chains) + {c}
  {
    hide Chain;
    if c in v.chains {
      assert Chain(v.table, v.chains[c]);
      ChainTail(v.table, v.chains[c]);
      ChainEntries(v.table, v.chains[c]);
      assert false;
    }
    var after := v.chains[c := [c]];
    UsedBy(after, c, c);
    forall k | k in Used(v.chains)
      ensures k in Used(after)
    {
      var f := OwnerOf(v.chains, k);
      UsedBy(after, f, k);
    }
    forall k | k in Used(after)
      ensures k == c || k in Used(v.chains)
    {
      var f := OwnerOf(after, k);
      if f != c {
        UsedBy(v.chains, f, k);
      }
    }
  }

  lemma {:induction false} DeleteFrees(v: Volume, f: nat)
    requires Inv(v) && f in v.chains
    ensures var w := After(v, Delete(f)); var gone := Members(v.chains[f]);
      Free(w.table) == Free(v.table) + gone && Used(w.chains) == Used(v.chains) - gone && gone <= Used(v.chains)
  {
    hide Chain;
    ChainEntries(v.table, v.chains[f]);
    UsedSplit(v, f);
  }

  lemma {:induction false} TruncateFrees(v: Volume, f: nat)
    requires Inv(v) && Enabled(v, Truncate(f))
    ensures var w := After(v, Truncate(f)); var gone := Members(v.chains[f][1..]);
      Free(w.table) == Free(v.table) + gone && Used(w.chains) == Used(v.chains) - gone && gone <= Used(v.chains)
  {
    hide Chain;
    var s := v.chains[f];
    var w := After(v, Truncate(f));
    ChainEntries(v.table, s);
    ChainTail(v.table, s);
    assert Free(w.table) == Free(v.table) + Members(s[1..]);
    TruncateKeeps(v, f);
    UsedSplit(v, f);
    UsedSplit(w, f);
    assert w.chains - {f} == v.chains - {f};
    assert Members(s) == {f} + Members(s[1..]) && Members([f]) == {f};
  }

  lemma {:induction false} UsedNotFree(v: Volume)
    requires Inv(v)
    ensures Used(v.chains) !! Free(v.table)
  {
    forall f, c | f in v.chains && c in v.chains[f]
      ensures c !in Free(v.table)
    {
      ChainEntries(v.table, v.chains[f]);
    }
  }

  // ---- Counting ----

  ghost function Pick(chains: map<nat, seq<nat>>): (f: nat)
    requires |chains| > 0
    ensures f in chains
  {
    assert chains.Keys != {};
    var f :| f in chains;
    f
  }

  /** The lengths of all chains together. */
  ghost function Total(chains: map<nat, seq<nat>>): nat
    decreases |chains|
  {
    if |chains| == 0 then 0
    else
      var f := Pick(chains);
      assert (chains - {f}).Keys == chains.Keys - {f};
      |chains[f]| + Total(chains - {f})
  }

  lemma {:induction false} DistinctCount(s: seq<nat>)
    requires forall i, j | 0 <= i < j < |s| :: s[i] != s[j]
    ensures |Members(s)| == |s|
    decreases |s|
  {
    if s != [] {
      DistinctCount(s[1..]);
      assert Members(s) == {s[0]} + Members(s[1..]);
    }
  }

  /** Disjoint chains use as many clusters as they are long. */
  lemma {:induction false} UsedCount(v: Volume)
    requires Inv(v)
    ensures |Used(v.chains)| == Total(v.chains)
    decreases |v.chains|
  {
    hide Used, Chain, Members;
    if |v.chains| == 0 {
      NothingUsed(v.chains);
    } else {
      var f := Pick(v.chains);
      var w := v.(chains := v.chains - {f});
      assert w.chains.Keys == v.chains.Keys - {f};
      UsedCount(w);
      ChainCount(v, f);
      UsedSplit(v, f);
      DisjointCount(Used(w.chains), Members(v.chains[f]));
    }
  }

  lemma {:induction false} NothingUsed(chains: map<nat, seq<nat>>)
    requires |chains| == 0
    ensures Used(chains) == {}
  {
    assert chains.Keys == {};
  }

  lemma {:induction false} ChainCount(v: Volume, f: nat)
    requires Inv(v) && f in v.chains
    ensures |Members(v.chains[f])| == |v.chains[f]|
  {
    assert Chain(v.table, v.chains[f]);
    DistinctCount(v.chains[f]);
  }

  lemma {:induction false} UsedSplit(v: Volume, f: nat)
    requires Inv(v) && f in v.chains
    ensures Used(v.chains) == Used(v.chains - {f}) + Members(v.chains[f]) &&
      Used(v.chains - {f}) !! Members(v.chains[f])
  {
    hide Chain;
    var rest := v.chains - {f};
    assert forall g :: g in rest <==> g in v.chains && g != f;
    assert forall g | g in rest :: rest[g] == v.chains[g];
    assert forall c | c in Used(v.chains) :: c in Used(rest) || c in Members(v.chains[f]);
  }

  predicate Run(v: Volume, steps: seq<Step>, w: Volume)
    decreases |steps|
  {
    if steps == [] then v == w else Enabled(v, steps[0]) && Run(After(v, steps[0]), steps[1..], w)
  }

  /** Over every run all chains stay acyclic and apart, and free clusters and chain lengths together stay the same. */
  lemma {:induction false} RunKeeps(v: Volume, steps: seq<Step>, w: Volume)
    requires Inv(v) && Run(v, steps, w)
    ensures Inv(w) && |Free(w.table)| + Total(w.chains) == |Free(v.table)| + Total(v.chains)
    ensures Free(w.table) + Used(w.chains) == Free(v.table) + Used(v.chains)
    decreases |steps|
  {
    if steps != [] {
      StepKeeps(v, steps[0]);
      Conserved(v, steps[0]);
      RunKeeps(After(v, steps[0]), steps[1..], w);
    }
  }

  lemma {:induction false} Conserved(v: Volume, step: Step)
    requires Inv(v) && Enabled(v, step) && Inv(After(v, step))
    ensures Free(After(v, step).table) + Used(After(v, step).chains) == Free(v.table) + Used(v.chains)
    ensures |Free(After(v, step).table)| + Total(After(v, step).chains) == |Free(v.table)| + Total(v.chains)
  {
    hide Inv, After, Free, Used, Total, Freed, Enabled;
    var w := After(v, step);
    StepFrees(v, step);
    UsedNotFree(v);
    UsedNotFree(w);
    UsedCount(v);
    UsedCount(w);
    DisjointCount(Free(v.table), Used(v.chains));
    DisjointCount(Free(w.table), Used(w.chains));
  }

  lemma {:induction false} DisjointCount(a: set<nat>, b: set<nat>)
    requires a !! b
    ensures |a + b| == |a| + |b|
  {
  }

  /** A file created on a cluster that need not be free leaves the files well formed exactly when no other file has that
      cluster but one that begins with it. */
  lemma {:induction false} CreatedOn(v: Volume, c: nat)
    requires Inv(v) && 2 <= c < |v.table|
    ensures Inv(Volume(v.table[c := LAST], v.chains[c := [c]])) <==>
            forall f | f in v.chains && c in v.chains[f] :: f == c
  {
    if forall f | f in v.chains && c in v.chains[f] :: f == c {
      CreatedApart(v, c);
    }
    if f :| f in v.chains && c in v.chains[f] && f != c {
      CreatedTwice(v, c, f);
    }
  }

  lemma {:induction false} CreatedApart(v: Volume, c: nat)
    requires Inv(v) && 2 <= c < |v.table| && forall f | f in v.chains && c in v.chains[f] :: f == c
    ensures Inv(Volume(v.table[c := LAST], v.chains[c := [c]]))
  {
    var u := Volume(v.table[c := LAST], v.chains[c := [c]]);
    assert Chain(u.table, [c]);
    forall f | f in v.chains && f != c
      ensures Chain(u.table, v.chains[f]) && v.chains[f][0] == f && c !in v.chains[f]
    {
      ChainStays(v.table, u.table, v.chains[f]);
    }
    hide Chain;
  }

  lemma {:induction false} CreatedTwice(v: Volume, c: nat, f: nat)
    requires c < |v.table| && f in v.chains && c in v.chains[f] && f != c
    ensures !Inv(Volume(v.table[c := LAST], v.chains[c := [c]]))
  {
    hide Chain;
    var u := Volume(v.table[c := LAST], v.chains[c := [c]]);
    assert c in u.chains[f] && c in u.chains[c];
  }

  /** A cluster past the end of the table makes no file. */
  lemma {:induction false} CreatedOutside(v: Volume, c: nat)
    requires c >= |v.table|
    ensures !Inv(v.(chains := v.chains[c := [c]]))
  {
    var u := v.(chains := v.chains[c := [c]]);
    assert u.chains[c] == [c];
  }

  /** Creating a file and deleting it again gives back the table and the files. */
  lemma {:induction false} CreateThenDelete(v: Volume, c: nat)
    requires Inv(v) && c in Free(v.table)
    ensures After(After(v, Create(c)), Delete(c)) == v
  {
    if c in v.chains {
      ChainEntries(v.table, v.chains[c]);
    }
    assert After(After(v, Create(c)), Delete(c)).chains == v.chains;
  }
}
