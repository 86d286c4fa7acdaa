/**
 Paths as text: what strtok_r does to a string in place, and the components of a path as a value.
 */
module PathStrings {
  import opened Options

  const NUL: char := '\0'

  /** The C string at position p: up to the first terminator. */
  function Text(a: seq<char>, p: nat): (s: string)
    requires p < |a| && a[|a| - 1] == NUL
    ensures NUL !in s && p + |s| < |a| && a[p + |s|] == NUL && a[p..p + |s|] == s
    decreases |a| - p
  {
    if a[p] == NUL then "" else [a[p]] + Text(a, p + 1)
  }

  /** How many characters at the start of s are, or are not, delimiters. */
  function Span(s: string, delim: string, inside: bool): (n: nat)
    ensures n <= |s| && (forall k | 0 <= k < n :: (s[k] in delim) == inside)
    ensures n < |s| ==> (s[n] in delim) != inside
  {
    if s == "" || (s[0] in delim) != inside then 0 else 1 + Span(s[1..], delim, inside)
  }

  /** The non-empty stretches between delimiters. */
  function Components(s: string, delim: string): seq<string>
    decreases |s|
  {
    var t := s[Span(s, delim, true)..];
    if t == "" then [] else [t[..Span(t, delim, false)]] + Components(t[Span(t, delim, false)..], delim)
  }

  /** A path spelled out: each name behind a slash. */
  function Join(names: seq<string>): string {
    if names == [] then "" else "/" + names[0] + Join(names[1..])
  }

  lemma {:induction false} SpanExact(s: string, delim: string, inside: bool, n: nat)
    requires n <= |s| && (forall k | 0 <= k < n :: (s[k] in delim) == inside)
    requires n < |s| ==> (s[n] in delim) != inside
    ensures Span(s, delim, inside) == n
  {
  }

  /** Joining and taking apart: names without slashes come back as they were. */
  lemma {:induction false} ComponentsOfJoin(names: seq<string>)
    requires forall i | 0 <= i < |names| :: names[i] != "" && '/' !in names[i]
    ensures Components(Join(names), "/") == names
    decreases |names|
  {
    if names == [] {
      SpanExact("", "/", true, 0);
    } else {
      var s, rest := Join(names), Join(names[1..]);
      assert s == ['/'] + names[0] + rest;
      assert s[1] == names[0][0];
      SpanExact(s, "/", true, 1);
      var t := s[1..];
      assert t == names[0] + rest;
      SpanExact(t, "/", false, |names[0]|);
      ComponentsOfJoin(names[1..]);
      assert t[|names[0]|..] == rest && t[..|names[0]|] == names[0];
    }
  }

  lemma {:induction false} JoinAppend(names: seq<string>, name: string)
    ensures Join(names + [name]) == Join(names) + "/" + name
    decreases |names|
  {
    if names == [] {
      assert [name][1..] == [];
    } else {
      JoinAppend(names[1..], name);
      assert (names + [name])[1..] == names[1..] + [name];
    }
  }

  /** strspn, and with `inside` false strcspn. */
  method StrSpan(a: array<char>, p: nat, delim: string, inside: bool) returns (n: nat)
    requires p < a.Length && a[a.Length - 1] == NUL
    ensures n == Span(Text(a[..], p), delim, inside)
  {
    ghost var s := Text(a[..], p);
    n := 0;
    while a[p + n] != NUL
      invariant n <= |s|
      invariant forall k | 0 <= k < n :: (s[k] in delim) == inside
      decreases |s| - n
    {
      assert s[n] == a[p + n];
      var found := false;
      var i := 0;
      while i < |delim| && !found
        invariant 0 <= i <= |delim| && found == (a[p + n] in delim[..i])
      {
        found := a[p + n] == delim[i];
        i := i + 1;
      }
      if found != inside {
        SpanExact(s, delim, inside, n);
        return;
      }
      n := n + 1;
    }
    SpanExact(s, delim, inside, n);
  }

  /** A string buffer, and a place in it or nothing. */
  predicate Holds(a: seq<char>, from: Option<nat>) {
    |a| > 0 && a[|a| - 1] == NUL && (from.Some? ==> from.value < |a|)
  }

  /** The components still to come. */
  ghost function Left(a: seq<char>, from: Option<nat>, delim: string): seq<string>
    requires Holds(a, from)
  {
    if from == None then [] else Components(Text(a, from.value), delim)
  }

  /** The token is the first of the components that were left, and `next` leads to the others. */
  ghost predicate Tokenized(before: seq<char>, from: Option<nat>, after: seq<char>, token: Option<nat>,
      next: Option<nat>, delim: string)
    requires Holds(before, from)
  {
    Holds(after, token) && Holds(after, next) &&
    if Left(before, from, delim) == [] then token == next == None
    else
      token.Some? && Text(after, token.value) == Left(before, from, delim)[0] &&
      Left(after, next, delim) == Left(before, from, delim)[1..]
  }

  /** strtok_r: the next component, cut out of the string in place, and where the one after it is looked for. */
  method StrtokR(a: array<char>, str: Option<nat>, save: Option<nat>, delim: string)
      returns (token: Option<nat>, next: Option<nat>)
    requires Holds(a[..], str) && Holds(a[..], save)
    modifies a
    ensures Tokenized(old(a[..]), if str.Some? then str else save, a[..], token, next, delim)
  {
    hide Tokenized, Text, Components, Span, Left;
    var start := if str.Some? then str else save;
    if start == None {
      NothingLeft(a[..], delim);
      return None, None;
    }
    ghost var before := a[..];
    SkipDelimiters(before, start.value, delim);
    var lead := StrSpan(a, start.value, delim, true);
    var p := start.value + lead;
    assert a[..] == before && a[p] == before[p];
    if a[p] == NUL {
      OnlyDelimiters(before, start.value, p, delim);
      return None, None;
    }
    token := Some(p);
    next := CutToken(a, p, delim, start.value);
  }

  /** The second half of strtok_r: the token that starts at p is ended. */
  method CutToken(a: array<char>, p: nat, delim: string, ghost start: nat) returns (next: Option<nat>)
    requires Holds(a[..], Some(p)) && Holds(a[..], Some(start)) && a[p] != NUL && a[p] !in delim
    requires Components(Text(a[..], start), delim) == Components(Text(a[..], p), delim)
    modifies a
    ensures Tokenized(old(a[..]), Some(start), a[..], Some(p), next, delim)
  {
    hide Tokenized, Text, Components, Span, Left;
    ghost var before := a[..];
    var length := StrSpan(a, p, delim, false);
    CutComponent(before, p, delim);
    var end := p + length;
    if a[end] == NUL {
      LastToken(before, start, p, delim);
      next := None;
    } else {
      a[end] := NUL;
      next := Some(end + 1);
      InnerToken(before, start, a[..], p, end, delim);
    }
  }

  lemma {:induction false} NothingLeft(a: seq<char>, delim: string)
    requires Holds(a, None)
    ensures Tokenized(a, None, a, None, None, delim)
  {
  }

  lemma {:induction false} OnlyDelimiters(a: seq<char>, start: nat, p: nat, delim: string)
    requires Holds(a, Some(start)) && p < |a| &&
      Components(Text(a, start), delim) == Components(Text(a, p), delim) == []
    ensures Tokenized(a, Some(start), a, None, None, delim)
  {
  }

  lemma {:induction false} LastToken(a: seq<char>, start: nat, p: nat, delim: string)
    requires Holds(a, Some(start)) && p < |a| && Components(Text(a, start), delim) == Components(Text(a, p), delim)
    requires |Components(Text(a, p), delim)| > 0 && Components(Text(a, p), delim)[1..] == []
    requires Components(Text(a, p), delim)[0] == Text(a, p)
    ensures Tokenized(a, Some(start), a, Some(p), None, delim)
  {
    hide Text, Components;
  }

  lemma {:induction false} InnerToken(a: seq<char>, start: nat, b: seq<char>, p: nat, end: nat, delim: string)
    requires Holds(a, Some(start)) && p <= end < |a| &&
      Components(Text(a, start), delim) == Components(Text(a, p), delim)
    requires b == a[end := NUL] && a[end] != NUL && end - p < |Text(a, p)|
    requires |Components(Text(a, p), delim)| > 0 && Components(Text(a, p), delim)[0] == Text(a, p)[..end - p]
    requires Components(Text(a, p), delim)[1..] == Components(Text(a, p)[end - p + 1..], delim)
    ensures Tokenized(a, Some(start), b, Some(p), Some(end + 1), delim)
  {
    hide Text, Components;
    CutText(a, b, p, end);
  }

  /** Leading delimiters do not matter. */
  lemma {:induction false} LeadingSkipped(s: string, delim: string)
    ensures Components(s, delim) == Components(s[Span(s, delim, true)..], delim)
    ensures Components("", delim) == []
  {
    var t := s[Span(s, delim, true)..];
    SpanExact(t, delim, true, 0);
    assert t[0..] == t;
  }

  /** Where no delimiter stands, a component starts, and ends at the next delimiter or with the string. */
  lemma {:induction false} FirstComponent(s: string, delim: string)
    requires s != "" && s[0] !in delim
    ensures var n := Span(s, delim, false);
      Components(s, delim) == [s[..n]] + if n == |s| then [] else Components(s[n + 1..], delim)
  {
    SpanExact(s, delim, true, 0);
    assert s[0..] == s;
    var n := Span(s, delim, false);
    if n == |s| {
      assert s[n..] == "";
      LeadingSkipped("", delim);
    } else {
      SkipOne(s[n..], delim);
      assert s[n..][1..] == s[n + 1..];
    }
  }

  lemma {:induction false} SkipDelimiters(a: seq<char>, p: nat, delim: string)
    requires p < |a| && a[|a| - 1] == NUL
    ensures var q := p + Span(Text(a, p), delim, true);
      q < |a| && Components(Text(a, p), delim) == Components(Text(a, q), delim) &&
      (a[q] == NUL ==> Components(Text(a, q), delim) == []) &&
      (a[q] != NUL ==> a[q] !in delim)
  {
    hide Components, Text, Span;
    var n := Span(Text(a, p), delim, true);
    TextAfter(a, p, n);
    LeadingSkipped(Text(a, p), delim);
    assert a[p + n] == NUL ==> Text(a, p + n) == "";
    if n < |Text(a, p)| {
      assert Text(a, p)[n] == a[p..p + |Text(a, p)|][n] == a[p + n];
    }
  }

  lemma {:induction false} CutComponent(a: seq<char>, p: nat, delim: string)
    requires p < |a| && a[|a| - 1] == NUL && a[p] != NUL && a[p] !in delim
    ensures var n := Span(Text(a, p), delim, false); var c := Components(Text(a, p), delim);
      n <= |Text(a, p)| && p + n < |a| && |c| > 0 && c[0] == Text(a, p)[..n] &&
      (a[p + n] == NUL <==> n == |Text(a, p)|) &&
      c[1..] == if a[p + n] == NUL then [] else Components(Text(a, p)[n + 1..], delim)
  {
    hide Components, Span;
    var s := Text(a, p);
    var n := Span(s, delim, false);
    FirstComponent(s, delim);
    if n < |s| {
      assert s[n] == a[p..p + |s|][n] == a[p + n];
    }
  }

  lemma {:induction false} TextAfter(a: seq<char>, p: nat, n: nat)
    requires p < |a| && a[|a| - 1] == NUL && n <= |Text(a, p)|
    ensures Text(a, p + n) == Text(a, p)[n..]
    decreases n
  {
    if n > 0 {
      TextAfter(a, p + 1, n - 1);
    }
  }

  lemma {:induction false} SameText(a: seq<char>, b: seq<char>, p: nat)
    requires |a| == |b| && p < |a| && a[|a| - 1] == b[|a| - 1] == NUL && a[p..] == b[p..]
    ensures Text(a, p) == Text(b, p)
    decreases |a| - p
  {
    assert a[p] == a[p..][0] == b[p..][0] == b[p];
    if a[p] != NUL {
      assert a[p + 1..] == a[p..][1..] && b[p + 1..] == b[p..][1..];
      SameText(a, b, p + 1);
    }
  }

  /** A terminator put at `end` ends the string that starts before it and leaves the one behind it alone. */
  lemma {:induction false} CutText(a: seq<char>, b: seq<char>, p: nat, end: nat)
    requires p <= end < |a| - 1 && |b| == |a| && a[|a| - 1] == NUL && b == a[end := NUL] && end < p + |Text(a, p)|
    ensures Text(b, p) == Text(a, p)[..end - p] && Text(b, end + 1) == Text(a, p)[end - p + 1..]
    decreases end - p
  {
    if p < end {
      CutText(a, b, p + 1, end);
    } else {
      SameText(a, b, end + 1);
    }
  }

  lemma {:induction false} SkipOne(s: string, delim: string)
    requires s != "" && s[0] in delim
    ensures Components(s, delim) == Components(s[1..], delim)
  {
    var n := Span(s[1..], delim, true);
    SpanExact(s, delim, true, n + 1);
    assert s[1..][n..] == s[n + 1..];
  }

  /** What the components are, for every text: those before a delimiter, and then those behind it. */
  lemma {:induction false} ComponentsSplit(a: string, d: char, b: string, delim: string)
    requires d in delim
    ensures Components(a + [d] + b, delim) == Components(a, delim) + Components(b, delim)
    decreases |a|
  {
    hide Components;
    var s := a + [d] + b;
    if a == "" {
      LeadingSkipped("", delim);
      SkipOne(s, delim);
      assert s[1..] == b;
    } else if a[0] in delim {
      SkipOne(s, delim);
      SkipOne(a, delim);
      assert s[1..] == a[1..] + [d] + b;
      ComponentsSplit(a[1..], d, b, delim);
    } else {
      SplitBehind(a, d, b, delim);
      var n := Span(a, delim, false);
      if n < |a| {
        ComponentsSplit(a[n + 1..], d, b, delim);
      }
    }
  }

  lemma {:induction false} SplitBehind(a: string, d: char, b: string, delim: string)
    requires d in delim && a != "" && a[0] !in delim
    ensures var n := Span(a, delim, false);
      Components(a, delim) == [a[..n]] + (if n == |a| then [] else Components(a[n + 1..], delim)) &&
      Components(a + [d] + b, delim) ==
        [a[..n]] + Components(if n == |a| then b else a[n + 1..] + [d] + b, delim)
  {
    hide Components;
    var s, n := a + [d] + b, Span(a, delim, false);
    SpanExact(s, delim, false, n);
    FirstComponent(s, delim);
    FirstComponent(a, delim);
    assert s[..n] == a[..n] && s[n + 1..] == if n == |a| then b else a[n + 1..] + [d] + b;
  }

  /** A text without delimiters is one component, unless it is empty. */
  lemma {:induction false} OneComponent(a: string, delim: string)
    requires forall c <- a :: c !in delim
    ensures Components(a, delim) == if a == "" then [] else [a]
  {
    hide Components;
    LeadingSkipped(a, delim);
    if a != "" {
      assert a[0] in a;
      FirstComponent(a, delim);
      SpanExact(a, delim, false, |a|);
      assert a[..|a|] == a;
    }
  }
}
