/**
 The line discipline of the pseudo-terminals: keys typed at the master end, lines read at the slave end.
 */
module Terminals {
  import opened RingBuffers

  const NEWLINE: Byte := 10
  const RETURN: Byte := 13
  const ERASE: Byte := 8

  predicate Terminator(c: Byte) {
    c == NEWLINE || c == RETURN
  }

  /** One key: an erase takes back the last byte, every other key appends itself. */
  function EditKey(queue: seq<Byte>, key: Byte): seq<Byte> {
    if key != ERASE then queue + [key] else if queue == [] then [] else queue[..|queue| - 1]
  }

  /** Line editing without limits. */
  function Edit(queue: seq<Byte>, keys: seq<Byte>): seq<Byte>
    decreases |keys|
  {
    if keys == [] then queue else EditKey(Edit(queue, keys[..|keys| - 1]), keys[|keys| - 1])
  }

  /** Keys typed in two goes are keys typed. */
  lemma {:induction false} EditAppend(queue: seq<Byte>, a: seq<Byte>, b: seq<Byte>)
    ensures Edit(queue, a + b) == Edit(Edit(queue, a), b)
    decreases |b|
  {
    if b == [] {
      assert a + b == a;
    } else {
      assert (a + b)[..|a + b| - 1] == a + b[..|b| - 1];
      EditAppend(queue, a, b[..|b| - 1]);
    }
  }

  /** Keys without an erase are what is read. */
  lemma {:induction false} EditPlain(queue: seq<Byte>, keys: seq<Byte>)
    requires ERASE !in keys
    ensures Edit(queue, keys) == queue + keys
    decreases |keys|
  {
    if keys != [] {
      EditPlain(queue, keys[..|keys| - 1]);
      assert queue + keys[..|keys| - 1] + [keys[|keys| - 1]] == queue + keys;
    }
  }

  /** A key and an erase right after it, or an erase with nothing to take back, are as good as not typed. */
  lemma {:induction false} EditUndone(queue: seq<Byte>, a: seq<Byte>, c: Byte, b: seq<Byte>)
    ensures c != ERASE ==> Edit(queue, a + [c, ERASE] + b) == Edit(queue, a + b)
    ensures Edit(queue, a) == [] ==> Edit(queue, a + [ERASE] + b) == Edit(queue, a + b)
  {
    EditAppend(queue, a, b);
    EditAppend(queue, a + [c, ERASE], b);
    EditAppend(queue, a + [ERASE], b);
    EditAppend(queue, a, [ERASE]);
    EditAppend(queue, a, [c, ERASE]);
    var now := Edit(queue, a);
    assert [ERASE][..0] == [] && [c, ERASE][..1] == [c] && [c][..0] == [];
    assert Edit(now, [c]) == EditKey(now, c);
    assert Edit(now, [c, ERASE]) == EditKey(Edit(now, [c]), ERASE) && (now + [c])[..|now|] == now;
    assert Edit(now, [ERASE]) == EditKey(now, ERASE);
  }

  /** The first n keys go in: each finds room, and none of them but the last ends a line. */
  ghost predicate Takes(queue: seq<Byte>, room: int, keys: seq<Byte>, n: nat) {
    n <= |keys| &&
    (forall k | 0 <= k < n :: keys[k] == ERASE || |Edit(queue, keys[..k])| < room) &&
    (forall k | 0 <= k < n - 1 :: !Terminator(keys[k]))
  }

  /** And the one after them does not: the keys are over, a line is, or the buffer is full. */
  ghost predicate Stops(queue: seq<Byte>, room: int, keys: seq<Byte>, n: nat)
    requires n <= |keys|
  {
    n == |keys| || (n > 0 && Terminator(keys[n - 1])) || (keys[n] != ERASE && |Edit(queue, keys[..n])| >= room)
  }

  /** The key after the first n, when they have gone in and the line goes on. */
  lemma {:induction false} NextKey(queue: seq<Byte>, room: int, keys: seq<Byte>, n: nat)
    requires Takes(queue, room, keys, n) && n < |keys| && (n > 0 ==> !Terminator(keys[n - 1]))
    ensures var now := Edit(queue, keys[..n]);
      if keys[n] == ERASE || |now| < room then
        Takes(queue, room, keys, n + 1) && Edit(queue, keys[..n + 1]) == EditKey(now, keys[n]) &&
        (Terminator(keys[n]) ==> Stops(queue, room, keys, n + 1))
      else Stops(queue, room, keys, n)
  {
    assert keys[..n + 1][..n] == keys[..n];
  }

  /** The two fix how many keys are consumed. */
  lemma {:induction false} ConsumedUnique(queue: seq<Byte>, room: int, keys: seq<Byte>, n: nat, m: nat)
    requires Takes(queue, room, keys, n) && Stops(queue, room, keys, n)
    requires Takes(queue, room, keys, m) && Stops(queue, room, keys, m)
    ensures n == m
  {
  }

  /** The first n bytes are the first line. */
  predicate IsLine(queue: seq<Byte>, n: int) {
    1 <= n <= |queue| && queue[n - 1] == NEWLINE && forall k | 0 <= k < n - 1 :: queue[k] != NEWLINE
  }

  lemma {:induction false} NothingTyped(queue: seq<Byte>, room: int, keys: seq<Byte>)
    ensures Takes(queue, room, keys, 0) && Edit(queue, keys[..0]) == queue
  {
  }

  lemma {:induction false} AllTyped(queue: seq<Byte>, room: int, keys: seq<Byte>)
    ensures Stops(queue, room, keys, |keys|)
  {
  }

  class Terminal {
    const input: RingBuffer
    var canonical: bool
    var raw: bool

    ghost predicate Valid()
      reads this, input, input.store
    {
      input.Valid()
    }

    ghost function Queue(): seq<Byte>
      requires Valid()
      reads this, input, input.store
    {
      input.Contents()
    }

    ghost function Room(): int
      reads this, input
    {
      input.store.Length - 1
    }

    /** A read of `size` bytes would wait. */
    ghost predicate ReadWaits(size: nat)
      requires Valid()
      reads this, input, input.store
    {
      size == 0 || if canonical then NEWLINE !in Queue() else Queue() == []
    }

    constructor (size: nat)
      ensures Valid() && fresh(input) && fresh(input.store) && Queue() == [] && Room() == size - 1 && canonical && !raw
    {
      input := new RingBuffer(size);
      canonical, raw := true, false;
    }

    /** The switch over the key in canonical mode. */
    method TypeKey(c: Byte) returns (taken: bool, lineComplete: bool)
      requires Valid()
      modifies input, input.store
      ensures Valid() && taken == (c == ERASE || |old(Queue())| < Room())
      ensures Queue() == if taken then EditKey(old(Queue()), c) else old(Queue())
      ensures lineComplete == (!taken || Terminator(c))
    {
      hide RingBuffer.Valid, RingBuffer.Contents;
      if c == ERASE {
        if input.Available() > 0 {
          var _ := input.Pop();
        }
        return true, false;
      }
      var n := input.Write([c]);
      taken := n > 0;
      lineComplete := !taken || c == NEWLINE || c == RETURN;
    }

    /** pty_write_to_input: how many keys were consumed, and whether the readers are woken. */
    method WriteToInput(keys: seq<Byte>) returns (written: nat, woken: bool)
      requires Valid()
      modifies input, input.store
      ensures Valid() && written <= |keys|
      ensures canonical && !raw ==>
        Takes(old(Queue()), Room(), keys, written) && Stops(old(Queue()), Room(), keys, written)
      ensures canonical && !raw ==> Queue() == Edit(old(Queue()), keys[..written])
      ensures canonical && !raw ==> (woken <==> written < |keys| || (written > 0 && Terminator(keys[written - 1])))
      ensures !canonical || raw ==>
        woken && Queue() == old(Queue()) + keys[..written] && (written < |keys| ==> |Queue()| >= Room())
    {
      hide RingBuffer.Valid, RingBuffer.Contents, Takes, Stops, Edit, EditKey;
      NothingTyped(Queue(), Room(), keys);
      written := 0;
      var lineComplete := false;
      var i := 0;
      while i < |keys| && !lineComplete
        invariant Valid() && written <= i <= |keys|
        invariant !lineComplete ==> written == i
        invariant !canonical || raw ==> written == i && !lineComplete && Queue() == old(Queue()) + keys[..written]
        invariant canonical && !raw ==> Takes(old(Queue()), Room(), keys, written)
        invariant canonical && !raw ==> Queue() == Edit(old(Queue()), keys[..written])
        invariant canonical && !raw && !lineComplete && written > 0 ==> !Terminator(keys[written - 1])
        invariant lineComplete ==> Stops(old(Queue()), Room(), keys, written)
        invariant lineComplete ==> written < |keys| || (written > 0 && Terminator(keys[written - 1]))
        decreases |keys| - i, !lineComplete
      {
        var c := keys[i];
        if !canonical || raw {
          var n := input.Write([c]);
          if n == 0 {
            break;
          }
          written := written + 1;
        } else {
          NextKey(old(Queue()), Room(), keys, written);
          var taken;
          taken, lineComplete := TypeKey(c);
          if taken {
            written := written + 1;
          }
        }
        i := i + 1;
      }
      AllTyped(old(Queue()), Room(), keys);
      woken := !canonical || raw || lineComplete;
    }

    /** find_newline: how long the first line is, or -1. */
    method FindNewline() returns (n: int)
      requires Valid()
      ensures n == -1 ==> NEWLINE !in Queue()
      ensures n != -1 ==> IsLine(Queue(), n)
    {
      hide RingBuffer.Valid, RingBuffer.Contents;
      var available := input.Available();
      for i := 0 to available
        invariant forall k | 0 <= k < i :: Queue()[k] != NEWLINE
      {
        var found, c := input.Peek(i);
        if found && c == NEWLINE {
          return i + 1;
        }
      }
      n := -1;
    }

    /** pty_slave_read, up to its return or to the point where it waits. */
    method SlaveRead(size: nat) returns (waits: bool, data: seq<Byte>)
      requires Valid()
      modifies input
      ensures Valid() && waits == old(ReadWaits(size)) && old(Queue()) == data + Queue()
      ensures waits ==> data == []
      ensures !waits && canonical ==> exists n :: IsLine(old(Queue()), n) && |data| == if n < size then n else size
      ensures !waits && !canonical ==> |data| == if |old(Queue())| < size then |old(Queue())| else size
    {
      hide RingBuffer.Valid, RingBuffer.Contents;
      if canonical {
        var n := FindNewline();
        if n == -1 {
          return true, [];
        }
        assert old(Queue())[n - 1] == NEWLINE;
        waits, data := input.ReadOrWait(if n < size then n else size);
      } else {
        waits, data := input.ReadOrWait(size);
      }
    }

    /** pty_poll for POLLIN: exactly when a read of any positive size would not wait. */
    method Poll() returns (readable: bool)
      requires Valid()
      ensures forall size: nat | size > 0 :: readable <==> !ReadWaits(size)
    {
      hide RingBuffer.Valid, RingBuffer.Contents;
      if canonical {
        var n := FindNewline();
        assert n != -1 ==> Queue()[n - 1] == NEWLINE;
        readable := n != -1;
      } else {
        readable := input.Available() != 0;
      }
    }
  }

  // ---- Erasing and finished lines ----

  /** No erase comes when the line typed so far is empty; section 11.1.6 of POSIX.1-2017 XBD has such an erase do
      nothing. */
  ghost predicate ErasesWithin(line: seq<Byte>, keys: seq<Byte>) {
    forall k | 0 <= k < |keys| && keys[k] == ERASE :: Edit(line, keys[..k]) != []
  }

  lemma {:induction false} ErasesStep(line: seq<Byte>, keys: seq<Byte>)
    requires keys != []
    ensures ErasesWithin(line, keys) <==>
      ErasesWithin(line, keys[..|keys| - 1]) && (keys[|keys| - 1] == ERASE ==> Edit(line, keys[..|keys| - 1]) != [])
  {
    var shorter := keys[..|keys| - 1];
    assert forall k | 0 <= k < |shorter| :: shorter[..k] == keys[..k];
  }

  /** While erases stay within the line, finished lines are untouched; after one that does not, bytes are missing. */
  lemma {:induction false} KeptOrShort(done: seq<Byte>, line: seq<Byte>, keys: seq<Byte>)
    requires done != []
    ensures ErasesWithin(line, keys) ==> Edit(done + line, keys) == done + Edit(line, keys)
    ensures !ErasesWithin(line, keys) ==> |Edit(done + line, keys)| < |done| + |Edit(line, keys)|
    decreases |keys|
  {
    if keys != [] {
      KeptOrShort(done, line, keys[..|keys| - 1]);
      ErasesStep(line, keys);
    }
  }

  /** The driver keeps finished lines apart from the one being typed exactly when no erase finds that one empty, or
      there are no finished lines: its erase takes the newline of the line before. */
  lemma {:induction false} FinishedLinesStay(done: seq<Byte>, line: seq<Byte>, keys: seq<Byte>)
    ensures Edit(done + line, keys) == done + Edit(line, keys) <==> done == [] || ErasesWithin(line, keys)
  {
    if done == [] {
      assert done + line == line && done + Edit(line, keys) == Edit(line, keys);
    } else {
      KeptOrShort(done, line, keys);
    }
  }

  /** Only a newline ends a read: a carriage return wakes the readers, and finds them still without a line. */
  lemma {:induction false} OnlyNewlineEndsWait(queue: seq<Byte>, keys: seq<Byte>)
    requires NEWLINE !in queue && NEWLINE !in keys
    ensures NEWLINE !in Edit(queue, keys)
    decreases |keys|
  {
    if keys != [] {
      OnlyNewlineEndsWait(queue, keys[..|keys| - 1]);
    }
  }

  // ---- Whole runs of calls ----

  /** How many keys of a call are consumed. */
  function Consumed(queue: seq<Byte>, room: int, keys: seq<Byte>): (n: nat)
    ensures n <= |keys|
    decreases |keys|
  {
    if keys == [] then 0
    else if keys[0] != ERASE && |queue| >= room then 0
    else if Terminator(keys[0]) then 1
    else 1 + Consumed(EditKey(queue, keys[0]), room, keys[1..])
  }

  lemma {:induction false} EditCons(queue: seq<Byte>, keys: seq<Byte>)
    requires keys != []
    ensures Edit(queue, keys) == Edit(EditKey(queue, keys[0]), keys[1..])
  {
    assert [keys[0]] + keys[1..] == keys && [keys[0]][..0] == [];
    EditAppend(queue, [keys[0]], keys[1..]);
  }

  /** It is the number that WriteToInput returns. */
  lemma {:induction false} ConsumedStops(queue: seq<Byte>, room: int, keys: seq<Byte>)
    ensures var n := Consumed(queue, room, keys); Takes(queue, room, keys, n) && Stops(queue, room, keys, n)
    decreases |keys|
  {
    var n := Consumed(queue, room, keys);
    assert keys[..0] == [];
    if n > 1 || (n == 1 && !Terminator(keys[0])) {
      var next := EditKey(queue, keys[0]);
      ConsumedStops(next, room, keys[1..]);
      forall k | 1 <= k <= |keys|
        ensures Edit(queue, keys[..k]) == Edit(next, keys[1..][..k - 1])
      {
        EditCons(queue, keys[..k]);
        assert keys[..k][1..] == keys[1..][..k - 1];
      }
      hide Edit, EditKey;
      TakesCons(queue, room, keys, n);
    }
  }

  lemma {:induction false} TakesCons(queue: seq<Byte>, room: int, keys: seq<Byte>, n: nat)
    requires 1 <= n <= |keys| && !Terminator(keys[0]) && (keys[0] == ERASE || |queue| < room) &&
      Edit(queue, keys[..0]) == queue
    requires var next := EditKey(queue, keys[0]);
      Takes(next, room, keys[1..], n - 1) && Stops(next, room, keys[1..], n - 1) &&
      forall k | 1 <= k <= |keys| :: Edit(queue, keys[..k]) == Edit(next, keys[1..][..k - 1])
    ensures Takes(queue, room, keys, n) && Stops(queue, room, keys, n)
  {
    hide Edit, EditKey;
    forall k | 1 <= k < n
      ensures keys[k] == ERASE || |Edit(queue, keys[..k])| < room
    {
      assert keys[k] == keys[1..][k - 1];
    }
    forall k | 1 <= k < n - 1
      ensures !Terminator(keys[k])
    {
      assert keys[k] == keys[1..][k - 1];
    }
  }

  /** The queue after a call, and after one call after another with no read between them. */
  function AfterCall(queue: seq<Byte>, room: int, keys: seq<Byte>): seq<Byte> {
    Edit(queue, keys[..Consumed(queue, room, keys)])
  }

  function AfterCalls(queue: seq<Byte>, room: int, calls: seq<seq<Byte>>): seq<Byte>
    decreases |calls|
  {
    if calls == [] then queue else AfterCalls(AfterCall(queue, room, calls[0]), room, calls[1..])
  }

  /** No call of the run takes a single key in. */
  predicate NothingConsumed(queue: seq<Byte>, room: int, calls: seq<seq<Byte>>)
    decreases |calls|
  {
    calls == [] ||
    (Consumed(queue, room, calls[0]) == 0 && NothingConsumed(AfterCall(queue, room, calls[0]), room, calls[1..]))
  }

  /** No state the run goes through, the first included, holds a newline: readers wait all along. */
  predicate NeverReadable(queue: seq<Byte>, room: int, calls: seq<seq<Byte>>)
    decreases |calls|
  {
    NEWLINE !in queue && (calls == [] || NeverReadable(AfterCall(queue, room, calls[0]), room, calls[1..]))
  }

  /** No call of the run consumes a newline. */
  predicate NoNewlineConsumed(queue: seq<Byte>, room: int, calls: seq<seq<Byte>>)
    decreases |calls|
  {
    calls == [] ||
    (NEWLINE !in calls[0][..Consumed(queue, room, calls[0])] &&
     NoNewlineConsumed(AfterCall(queue, room, calls[0]), room, calls[1..]))
  }

  /** A full buffer is stuck through a run of calls exactly as long as no call begins with an erase; then the queue
      stays what it is, and without a newline in it no read ever ends. */
  lemma {:induction false} FullIsStuck(queue: seq<Byte>, room: int, calls: seq<seq<Byte>>)
    requires |queue| >= room
    ensures NothingConsumed(queue, room, calls) <==> forall keys <- calls | keys != [] :: keys[0] != ERASE
    ensures NothingConsumed(queue, room, calls) ==> AfterCalls(queue, room, calls) == queue
    ensures NothingConsumed(queue, room, calls) && NEWLINE !in queue ==> NeverReadable(queue, room, calls)
    decreases |calls|
  {
    if calls != [] {
      var keys := calls[0];
      assert keys[..0] == [];
      assert Consumed(queue, room, keys) == 0 <==> keys == [] || keys[0] != ERASE;
      if Consumed(queue, room, keys) == 0 {
        FullIsStuck(queue, room, calls[1..]);
        assert forall k :: k in calls <==> k == keys || k in calls[1..];
      } else {
        assert keys in calls;
      }
    }
  }

  /** A consumed newline is the last key consumed, and stays. */
  lemma {:induction false} NewlineLast(queue: seq<Byte>, room: int, keys: seq<Byte>)
    ensures var taken := keys[..Consumed(queue, room, keys)];
      NEWLINE in taken ==> taken[|taken| - 1] == NEWLINE && NEWLINE in AfterCall(queue, room, keys)
  {
    ConsumedStops(queue, room, keys);
    var n := Consumed(queue, room, keys);
    var taken := keys[..n];
    if NEWLINE in taken {
      var k :| 0 <= k < n && taken[k] == NEWLINE;
      assert keys[k] == NEWLINE;
      var before := Edit(queue, taken[..n - 1]);
      assert Edit(queue, taken) == before + [NEWLINE];
      assert (before + [NEWLINE])[|before|] == NEWLINE;
    }
  }

  /** From any queue without a newline, readers wait all along exactly when no call of the run consumes one.  An erase
      first makes that possible even for a full buffer: see EraseUnsticks. */
  lemma {:induction false} NeverReadableExactly(queue: seq<Byte>, room: int, calls: seq<seq<Byte>>)
    requires NEWLINE !in queue
    ensures NeverReadable(queue, room, calls) <==> NoNewlineConsumed(queue, room, calls)
    decreases |calls|
  {
    if calls != [] {
      var keys := calls[0];
      NewlineLast(queue, room, keys);
      if NEWLINE !in keys[..Consumed(queue, room, keys)] {
        OnlyNewlineEndsWait(queue, keys[..Consumed(queue, room, keys)]);
        NeverReadableExactly(AfterCall(queue, room, keys), room, calls[1..]);
      }
    }
  }

  /** The way out of a full buffer: an erase, then the newline. */
  lemma {:induction false} EraseUnsticks(queue: seq<Byte>, room: int)
    requires |queue| == room > 0
    ensures AfterCalls(queue, room, [[ERASE, NEWLINE]]) == queue[..room - 1] + [NEWLINE]
  {
    var keys := [ERASE, NEWLINE];
    var rest := keys[1..];
    assert rest == [NEWLINE];
    assert Consumed(queue[..room - 1], room, rest) == 1 && Consumed(queue, room, keys) == 2;
    assert keys[..2] == keys && keys[..1] == [ERASE] && keys[..1][..0] == [];
    assert Edit(queue, keys[..1]) == queue[..room - 1];
    assert [[ERASE, NEWLINE]][1..] == [];
  }

  ghost predicate FullWithoutLine(t: Terminal)
    requires t.Valid()
    reads t, t.input, t.input.store
  {
    |t.Queue()| >= t.Room() && NEWLINE !in t.Queue()
  }

  /** Calls one after another on a terminal: the queue goes through exactly those states, so a full buffer without a
      newline keeps its readers waiting while no call begins with an erase. */
  method WriteCalls(t: Terminal, calls: seq<seq<Byte>>)
    requires t.Valid() && t.canonical && !t.raw
    modifies t.input, t.input.store
    ensures t.Valid() && t.Queue() == AfterCalls(old(t.Queue()), t.Room(), calls)
    ensures old(FullWithoutLine(t)) && (forall keys <- calls | keys != [] :: keys[0] != ERASE) ==>
      t.Queue() == old(t.Queue()) && forall size: nat :: t.ReadWaits(size)
  {
    hide Takes, Stops, Consumed, Edit, RingBuffer.Valid, RingBuffer.Contents;
    FullIfStuck(t.Queue(), t.Room(), calls);
    ghost var room := t.Room();
    assert calls[0..] == calls;
    for i := 0 to |calls|
      invariant t.Valid() && t.Room() == room
      invariant AfterCalls(old(t.Queue()), room, calls) == AfterCalls(t.Queue(), room, calls[i..])
    {
      ghost var before := t.Queue();
      var written, woken := t.WriteToInput(calls[i]);
      ConsumedStops(before, room, calls[i]);
      ConsumedUnique(before, room, calls[i], written, Consumed(before, room, calls[i]));
      assert calls[i..][1..] == calls[i + 1..];
    }
  }

  lemma {:induction false} FullIfStuck(queue: seq<Byte>, room: int, calls: seq<seq<Byte>>)
    ensures |queue| >= room && (forall keys <- calls | keys != [] :: keys[0] != ERASE) ==>
      AfterCalls(queue, room, calls) == queue
  {
    hide AfterCalls, NothingConsumed;
    if |queue| >= room {
      FullIsStuck(queue, room, calls);
    }
  }
}
