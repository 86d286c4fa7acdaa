/**
 The ring buffer behind pipes and terminals: as a value with its laws, as the object that is updated in place,
 and as a pipe between one producer and one consumer that interleave byte by byte.
 */
module RingBuffers {
  import opened Modular

  type Byte = b: int | 0 <= b < 256

  datatype Ring = Ring(store: seq<Byte>, head: nat, tail: nat) {
    predicate Valid() {
      if store == [] then head == tail == 0 else head < |store| && tail < |store|
    }

    /** The unread bytes, oldest first. */
    function Contents(): seq<Byte>
      requires Valid()
    {
      if head <= tail then store[head..tail] else store[head..] + store[..tail]
    }

    /** The tail advances over a stored byte; whether there is room is not looked at. */
    function Put(b: Byte): Ring
      requires Valid() && store != []
    {
      Ring(store[tail := b], head, if tail + 1 >= |store| then 0 else tail + 1)
    }

    function Get(): Ring
      requires Valid() && store != []
    {
      this.(head := (head + 1) % |store|)
    }

    function Unput(): Ring
      requires Valid() && store != []
    {
      this.(tail := (tail - 1 + |store|) % |store|)
    }
  }

  /** Storing a byte appends it exactly when a place besides the one kept empty is left; otherwise all unread bytes
      are lost. */
  lemma {:induction false} PutAppends(r: Ring, b: Byte)
    requires r.Valid() && r.store != []
    ensures r.Put(b).Valid() && |r.Put(b).store| == |r.store|
    ensures r.Put(b).Contents() == if |r.Contents()| < |r.store| - 1 then r.Contents() + [b] else []
  {
  }

  lemma {:induction false} GetDropsFirst(r: Ring)
    requires r.Valid() && r.Contents() != []
    ensures r.store[r.head] == r.Contents()[0]
    ensures r.Get().Valid() && r.Get().Contents() == r.Contents()[1..]
  {
    Turn(r.head + 1, |r.store|);
  }

  lemma {:induction false} InBounds(r: Ring)
    requires r.Valid() && r.Contents() != []
    ensures r.head < |r.store| && r.tail < |r.store|
  {
  }

  lemma {:induction false} UnputDropsLast(r: Ring)
    requires r.Valid() && r.Contents() != []
    ensures r.Unput().Valid() && r.Unput().Contents() == r.Contents()[..|r.Contents()| - 1]
    ensures r.store[r.Unput().tail] == r.Contents()[|r.Contents()| - 1]
  {
    Turn(r.tail - 1 + |r.store|, |r.store|);
  }

  lemma {:induction false} PeekAt(r: Ring, k: nat)
    requires r.Valid() && k < |r.Contents()|
    ensures (r.head + k) % |r.store| < |r.store| && r.store[(r.head + k) % |r.store|] == r.Contents()[k]
  {
    Turn(r.head + k, |r.store|);
  }

  class RingBuffer {
    const store: array<Byte>
    var head: nat
    var tail: nat

    ghost function View(): Ring
      reads this, store
    {
      Ring(store[..], head, tail)
    }

    ghost predicate Valid()
      reads this, store
    {
      View().Valid()
    }

    ghost function Contents(): seq<Byte>
      requires Valid()
      reads this, store
    {
      View().Contents()
    }

    constructor (size: nat)
      ensures Valid() && fresh(store) && store.Length == size && Contents() == []
    {
      store := new Byte[size](_ => 0);
      head, tail := 0, 0;
    }

    /** ring_buffer_writeable: one place always stays empty, so that a full buffer is not taken for an empty one. */
    function Writeable(): (n: int)
      requires Valid()
      reads this, store
      ensures n == store.Length - 1 - |Contents()|
    {
      if head == tail then store.Length - 1
      else if tail < head then head - tail - 1
      else (store.Length - tail) + head - 1
    }

    /** ring_buffer_available. */
    function Available(): (n: int)
      requires Valid()
      reads this, store
      ensures n == |Contents()|
    {
      if head == tail then 0
      else if tail < head then (store.Length - head) + tail
      else tail - head
    }

    /** The body of the write loop. */
    method StoreByte(b: Byte)
      requires Valid() && Writeable() > 0
      modifies this`tail, store
      ensures Valid() && Contents() == old(Contents()) + [b]
    {
      PutAppends(View(), b);
      store[tail] := b;
      tail := tail + 1;
      if tail >= store.Length {
        tail := 0;
      }
      assert View() == old(View()).Put(b);
    }

    /** ring_buffer_write on a buffer that does not block writers: all of it, or nothing. */
    method Write(data: seq<Byte>) returns (written: nat)
      requires Valid()
      modifies this`tail, store
      ensures Valid() && written == if old(Writeable()) < |data| then 0 else |data|
      ensures Contents() == old(Contents()) + data[..written]
    {
      if Writeable() < |data| {
        return 0;
      }
      written := 0;
      while written < |data|
        invariant Valid() && written <= |data| && Contents() == old(Contents()) + data[..written]
      {
        StoreByte(data[written]);
        written := written + 1;
      }
    }

    /** The body of the read loop. */
    method FetchByte() returns (b: Byte)
      requires Valid() && Available() > 0
      modifies this`head
      ensures Valid() && old(Contents()) == [b] + Contents()
    {
      hide Ring.Contents, Ring.Valid;
      InBounds(View());
      GetDropsFirst(View());
      b := store[head];
      head := (head + 1) % store.Length;
      assert View() == old(View()).Get();
    }

    /** The read loop: as many bytes as there are, up to `size`. */
    method Drain(size: nat) returns (data: seq<Byte>)
      requires Valid()
      modifies this`head
      ensures Valid() && old(Contents()) == data + Contents()
      ensures |data| == if size < old(Available()) then size else old(Available())
    {
      hide Ring.Contents, Ring.Valid;
      data := [];
      while Available() > 0 && |data| < size
        invariant Valid() && |data| <= size && old(Contents()) == data + Contents()
        decreases size - |data|
      {
        var b := FetchByte();
        data := data + [b];
      }
    }

    /** ring_buffer_write on a buffer that blocks writers.  `takes` says how many bytes the readers want during each
        wait.  The writer gets through exactly when its bytes fit the buffer at all and the readers take enough. */
    method WriteBlocking(data: seq<Byte>, takes: seq<nat>) returns (done: bool, ghost taken: nat)
      requires Valid()
      modifies this, store
      ensures Valid() && taken <= |old(Contents())|
      ensures done <==> |data| < store.Length && |old(Contents())| + |data| < store.Length + Sum(takes)
      ensures Contents() == old(Contents())[taken..] + if done then data else []
    {
      hide Ring.Contents, Ring.Valid;
      ghost var before := Contents();
      taken := 0;
      var i := 0;
      assert takes[0..] == takes;
      while Writeable() < |data|
        invariant Valid() && 0 <= i <= |takes| && taken <= |before| && Contents() == before[taken..]
        invariant |data| < store.Length ==>
          (|before| + |data| < store.Length + Sum(takes) <==>
            |Contents()| + |data| < store.Length + Sum(takes[i..]))
        decreases |takes| - i
      {
        if i == |takes| {
          return false, taken;
        }
        var fetched := Drain(takes[i]);
        taken := taken + |fetched|;
        assert takes[i..][1..] == takes[i + 1..];
        i := i + 1;
      }
      var written := Write(data);
      done := true;
    }

    /** ring_buffer_read up to its return or to the point where it waits for a writer. */
    method ReadOrWait(size: nat) returns (waits: bool, data: seq<Byte>)
      requires Valid()
      modifies this`head
      ensures Valid() && old(Contents()) == data + Contents()
      ensures |data| == if size < old(Available()) then size else old(Available())
      ensures waits <==> size == 0 || old(Contents()) == []
    {
      data := Drain(size);
      waits := |data| == 0;
    }

    /** All of ring_buffer_read: `arrived` is what writers store while it waits, if it does.  After the wait it drains
        once more, and returns whatever that gives. */
    method Read(size: nat, arrived: seq<Byte>) returns (data: seq<Byte>)
      requires Valid() && (size == 0 || Contents() == [] ==> |arrived| <= Writeable())
      modifies this, store
      ensures Valid()
      ensures var bytes := old(Contents()) + if size == 0 || old(Contents()) == [] then arrived else [];
        bytes == data + Contents() && |data| == if size < |bytes| then size else |bytes|
    {
      hide Ring.Contents, Ring.Valid;
      var waits;
      waits, data := ReadOrWait(size);
      if waits {
        assert data == [] && Contents() == old(Contents());
        var written := Write(arrived);
        data := Drain(size);
      }
    }

    /** ring_buffer_pop: the newest byte goes. */
    method Pop() returns (popped: bool)
      requires Valid()
      modifies this`tail
      ensures Valid() && popped == (old(Contents()) != [])
      ensures Contents() == if popped then old(Contents())[..|old(Contents())| - 1] else []
    {
      if Available() == 0 {
        return false;
      }
      UnputDropsLast(View());
      tail := (tail - 1 + store.Length) % store.Length;
      popped := true;
    }

    /** ring_buffer_peek. */
    method Peek(offset: nat) returns (found: bool, data: Byte)
      requires Valid()
      ensures found == (offset < |Contents()|)
      ensures found ==> data == Contents()[offset]
    {
      if offset >= Available() {
        return false, 0;
      }
      PeekAt(View(), offset);
      var index := (head + offset) % store.Length;
      return true, store[index];
    }

    /** ring_buffer_read_last. */
    method ReadLast() returns (found: bool, data: Byte)
      requires Valid()
      ensures found == (Contents() != [])
      ensures found ==> data == Contents()[|Contents()| - 1]
    {
      if Available() == 0 {
        return false, 0;
      }
      UnputDropsLast(View());
      var last := (tail - 1 + store.Length) % store.Length;
      return true, store[last];
    }

    /** ring_buffer_discard_readable. */
    method Discard()
      requires Valid()
      modifies this`head
      ensures Valid() && Contents() == []
    {
      head := tail;
    }
  }

  function Sum(s: seq<nat>): nat {
    if s == [] then 0 else s[0] + Sum(s[1..])
  }

  // ---- One producer and one consumer ----

  /** The producer has checked once for room for `pending` and stores it byte by byte; `stored` and `fetched` are all
      the bytes that ever went in and came out. */
  datatype Pipe = Pipe(ring: Ring, pending: seq<Byte>, stored: seq<Byte>, fetched: seq<Byte>)

  datatype PipeStep = Admit(data: seq<Byte>) | StoreNext | FetchNext

  predicate Enabled(p: Pipe, step: PipeStep)
    requires p.ring.Valid()
  {
    match step
    case Admit(data) => p.pending == [] && |p.ring.store| - 1 - |p.ring.Contents()| >= |data|
    case StoreNext => p.pending != [] && p.ring.store != []
    case FetchNext => p.ring.Contents() != []
  }

  function Next(p: Pipe, step: PipeStep): Pipe
    requires p.ring.Valid() && Enabled(p, step)
  {
    match step
    case Admit(data) => p.(pending := data)
    case StoreNext => p.(ring := p.ring.Put(p.pending[0]), pending := p.pending[1..],
      stored := p.stored + [p.pending[0]])
    case FetchNext => p.(ring := p.ring.Get(), fetched := p.fetched + [p.ring.store[p.ring.head]])
  }

  predicate PipeInv(p: Pipe) {
    p.ring.Valid() && p.fetched + p.ring.Contents() == p.stored &&
    (p.pending != [] ==> |p.pending| + |p.ring.Contents()| <= |p.ring.store| - 1)
  }

  predicate Run(p: Pipe, steps: seq<PipeStep>, q: Pipe)
    decreases |steps|
  {
    if steps == [] then p == q
    else p.ring.Valid() && Enabled(p, steps[0]) && Run(Next(p, steps[0]), steps[1..], q)
  }

  /** A step loses, repeats and overwrites nothing: what was unread stays, in order, but for the byte fetched. */
  lemma {:induction false} PipeKeeps(p: Pipe, step: PipeStep)
    requires PipeInv(p) && Enabled(p, step)
    ensures PipeInv(Next(p, step))
    ensures !step.FetchNext? ==> p.ring.Contents() <= Next(p, step).ring.Contents()
  {
    hide Ring.Contents, Ring.Valid;
    match step
    case Admit(data) =>
    case StoreNext =>
      PutAppends(p.ring, p.pending[0]);
      assert p.fetched + (p.ring.Contents() + [p.pending[0]]) == p.fetched + p.ring.Contents() + [p.pending[0]];
    case FetchNext =>
      InBounds(p.ring);
      GetDropsFirst(p.ring);
      var c := p.ring.Contents();
      assert p.fetched + c == p.fetched + [c[0]] + c[1..];
  }

  /** In every state of every run, the bytes read so far followed by the contents are the bytes stored so far; a writer
      that has checked for room is never short of it, whatever the reader does meanwhile. */
  lemma {:induction false} PipeRun(p: Pipe, steps: seq<PipeStep>, q: Pipe)
    requires PipeInv(p) && Run(p, steps, q)
    ensures PipeInv(q)
    decreases |steps|
  {
    if steps != [] {
      PipeKeeps(p, steps[0]);
      PipeRun(Next(p, steps[0]), steps[1..], q);
    }
  }

  /** The check matters: one byte too many and every unread byte is gone. */
  lemma {:induction false} UncheckedStoreLoses(r: Ring, data: seq<Byte>)
    requires r.Valid() && r.store != [] && |data| == |r.store| - |r.Contents()|
    ensures PutAll(r, data).Valid() && PutAll(r, data).Contents() == []
    decreases |data|
  {
    PutAppends(r, data[0]);
    if |data| > 1 {
      UncheckedStoreLoses(r.Put(data[0]), data[1..]);
    }
  }

  function PutAll(r: Ring, data: seq<Byte>): Ring
    requires r.Valid() && r.store != []
    decreases |data|
  {
    if data == [] then r
    else
      PutAppends(r, data[0]);
      PutAll(r.Put(data[0]), data[1..])
  }
}
