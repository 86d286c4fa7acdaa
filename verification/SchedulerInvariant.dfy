/**
 Every process that has not finished is in exactly one place, through every step.
 */
module SchedulerInvariant {
  import opened Options
  import opened Scheduling

  datatype Place = Cpu | Ready | Sleeping | Queued(m: MutexId)

  ghost predicate NoDup(q: seq<Pid>) {
    forall i, j | 0 <= i < j < |q| :: q[i] != q[j]
  }

  /** `queue` holds, once each, the processes whose place is `place`. */
  ghost predicate Holds(queue: seq<Pid>, at: map<Pid, Place>, place: Place) {
    NoDup(queue) && forall p :: p in queue <==> p in at && at[p] == place
  }

  /** Flags agree with the place, and a retry loop that has not queued up yet still knows its mutex. */
  ghost predicate FlagsFit(s: Sys, at: map<Pid, Place>, p: Pid)
    requires p in s.procs && p in at
  {
    var q := s.procs[p];
    (q.asleep <==> at[p].Sleeping? || at[p].Queued?) &&
    (at[p].Queued? ==> q.todo == Acquiring(at[p].m) || q.todo == WaitingFor(at[p].m)) &&
    (at[p].Sleeping? ==> q.todo == OwnCode)
  }

  ghost predicate Queues(s: Sys, at: map<Pid, Place>) {
    Holds(s.ready, at, Ready) && Holds(s.sleeping, at, Sleeping) &&
    (forall m <- s.mutexes :: Holds(s.mutexes[m].waiting, at, Queued(m))) &&
    (forall p <- at | at[p].Queued? :: at[p].m in s.mutexes) &&
    (forall p <- at | at[p] == Cpu :: p == s.current)
  }

  ghost predicate Records(s: Sys, at: map<Pid, Place>, out: set<Pid>) {
    IDLE !in s.procs && at.Keys !! out &&
    (forall p :: p in s.procs && !s.procs[p].finished <==> p in at || p in out) &&
    (forall p <- at :: FlagsFit(s, at, p)) &&
    (forall p <- s.procs :: p <= s.lastPid && (s.procs[p].onCpu ==> p == s.current && !s.procs[p].finished)) &&
    (forall p <- s.procs | s.procs[p].todo != OwnCode :: s.procs[p].todo.m in s.mutexes)
  }

  /** A mutex somebody waits for has an owner: nobody is left to wait for a release that will not come. */
  ghost predicate WaitersOwned(s: Sys) {
    forall m <- s.mutexes | s.mutexes[m].waiting != [] :: s.mutexes[m].owner != None
  }

  /** The invariant in the middle of a step, when the processes in `out` are on their way from one place to another. */
  ghost predicate Mid(s: Sys, at: map<Pid, Place>, out: set<Pid>) {
    Queues(s, at) && Records(s, at, out) && WaitersOwned(s)
  }

  ghost predicate Inv(s: Sys, at: map<Pid, Place>) {
    Mid(s, at, {}) && (s.current != IDLE ==> s.current in at && at[s.current] == Cpu)
  }

  ghost predicate NobodyOnCpu(at: map<Pid, Place>) {
    forall p <- at :: at[p] != Cpu
  }

  // ---- Moves ----

  lemma {:induction false} HoldsPush(queue: seq<Pid>, at: map<Pid, Place>, place: Place, p: Pid)
    requires Holds(queue, at, place) && p !in at
    ensures Holds(queue + [p], at[p := place], place)
  {
  }

  lemma {:induction false} HoldsOther(queue: seq<Pid>, at: map<Pid, Place>, place: Place, p: Pid, to: Place)
    requires Holds(queue, at, place) && to != place && (p in at ==> at[p] != place)
    ensures Holds(queue, at[p := to], place)
  {
  }

  lemma {:induction false} HoldsWithout(queue: seq<Pid>, at: map<Pid, Place>, place: Place, p: Pid)
    requires Holds(queue, at, place) && (p in at ==> at[p] != place)
    ensures Holds(queue, at - {p}, place)
  {
  }

  lemma {:induction false} HoldsMember(queue: seq<Pid>, at: map<Pid, Place>, place: Place, i: nat)
    requires Holds(queue, at, place) && i < |queue|
    ensures queue[i] in at && at[queue[i]] == place
  {
    assert queue[i] in queue;
  }

  lemma {:induction false} HoldsCut(queue: seq<Pid>, at: map<Pid, Place>, place: Place, i: nat)
    requires Holds(queue, at, place) && i < |queue|
    ensures Holds(queue[..i] + queue[i + 1..], at - {queue[i]}, place)
  {
    var cut := queue[..i] + queue[i + 1..];
    forall p
      ensures p in cut <==> p in at - {queue[i]} && at[p] == place
    {
      if p in at && at[p] == place && p != queue[i] {
        var j :| 0 <= j < |queue| && queue[j] == p;
        assert cut[if j < i then j else j - 1] == p;
      }
    }
  }

  /** The current process steps off the CPU. */
  lemma {:induction false} StepOff(s: Sys, at: map<Pid, Place>)
    requires Inv(s, at) && s.current != IDLE
    ensures Mid(s, at - {s.current}, {s.current}) && NobodyOnCpu(at - {s.current})
  {
    forall m <- s.mutexes
      ensures Holds(s.mutexes[m].waiting, at - {s.current}, Queued(m))
    {
      HoldsWithout(s.mutexes[m].waiting, at, Queued(m), s.current);
    }
  }

  lemma {:induction false} ClearOnCpu(s: Sys, at: map<Pid, Place>, out: set<Pid>)
    requires Mid(s, at, out)
    ensures Mid(SetOnCpu(s, s.current, false), at, out)
  {
  }

  lemma {:induction false} PutReadyQueues(s: Sys, at: map<Pid, Place>, p: Pid)
    requires Queues(s, at) && p !in at
    ensures Queues(MakeReady(s, p), at[p := Ready])
  {
    hide Holds;
    HoldsPush(s.ready, at, Ready, p);
    HoldsOther(s.sleeping, at, Sleeping, p, Ready);
    forall m <- s.mutexes
      ensures Holds(s.mutexes[m].waiting, at[p := Ready], Queued(m))
    {
      HoldsOther(s.mutexes[m].waiting, at, Queued(m), p, Ready);
    }
  }

  lemma {:induction false} PutReady(s: Sys, at: map<Pid, Place>, out: set<Pid>, p: Pid)
    requires Mid(s, at, out) && p in out
    ensures Mid(MakeReady(s, p), at[p := Ready], out - {p})
  {
    hide Queues;
    PutReadyQueues(s, at, p);
  }

  /** Where everybody is after Dispatch. */
  function DispatchedAt(s: Sys, at: map<Pid, Place>): map<Pid, Place> {
    if s.ready == [] then at else at[s.ready[0] := Cpu]
  }

  /** A process moves from the head of the ready queue to the CPU. */
  lemma {:induction false} DispatchQueues(s: Sys, at: map<Pid, Place>)
    requires Queues(s, at) && NobodyOnCpu(at) && s.ready != []
    ensures Queues(Dispatch(s), at[s.ready[0] := Cpu]) && s.ready[0] in at && at[s.ready[0]] == Ready
  {
    hide Holds;
    var p := s.ready[0];
    HoldsMember(s.ready, at, Ready, 0);
    HoldsCut(s.ready, at, Ready, 0);
    assert s.ready[..0] + s.ready[0 + 1..] == s.ready[1..];
    HoldsOther(s.ready[1..], at - {p}, Ready, p, Cpu);
    assert (at - {p})[p := Cpu] == at[p := Cpu];
    HoldsOther(s.sleeping, at, Sleeping, p, Cpu);
    forall m <- s.mutexes
      ensures Holds(s.mutexes[m].waiting, at[p := Cpu], Queued(m))
    {
      HoldsOther(s.mutexes[m].waiting, at, Queued(m), p, Cpu);
    }
  }

  lemma {:induction false} DispatchKeeps(s: Sys, at: map<Pid, Place>)
    requires Mid(s, at, {}) && NobodyOnCpu(at) && (forall p <- s.procs :: !s.procs[p].onCpu)
    ensures Inv(Dispatch(s), DispatchedAt(s, at))
  {
    hide Holds;
    if s.ready != [] {
      DispatchQueues(s, at);
      hide Queues;
    }
  }

  /** schedule(true): the current process has already left, for a queue or for good. */
  lemma {:induction false} SleepSwitch(s: Sys, at: map<Pid, Place>) returns (at': map<Pid, Place>)
    requires Mid(s, at, {}) && NobodyOnCpu(at)
    ensures Inv(Schedule(s, true), at')
  {
    ClearOnCpu(s, at, {});
    var s1 := SetOnCpu(s, s.current, false);
    assert forall p <- s1.procs :: !s1.procs[p].onCpu;
    hide Queues, WaitersOwned, FlagsFit;
    DispatchKeeps(s1, at);
    at' := DispatchedAt(s1, at);
  }

  /** schedule(false): the current process goes to the end of the ready queue. */
  lemma {:induction false} YieldSwitch(s: Sys, at: map<Pid, Place>) returns (at': map<Pid, Place>)
    requires Inv(s, at)
    ensures Inv(Schedule(s, false), at')
  {
    if s.current == IDLE {
      assert Schedule(s, false) == Schedule(s, true);
      assert NobodyOnCpu(at);
      at' := SleepSwitch(s, at);
    } else {
      var p := s.current;
      StepOff(s, at);
      ClearOnCpu(s, at - {p}, {p});
      var s1 := SetOnCpu(s, p, false);
      PutReady(s1, at - {p}, {p}, p);
      var s2 := MakeReady(s1, p);
      assert {p} - {p} == {};
      assert forall q <- s2.procs :: !s2.procs[q].onCpu;
      hide Queues, WaitersOwned, FlagsFit, MakeReady, Mid;
      DispatchKeeps(s2, (at - {p})[p := Ready]);
      at' := DispatchedAt(s2, (at - {p})[p := Ready]);
    }
  }

  lemma {:induction false} QueueUp(s: Sys, at: map<Pid, Place>, m: MutexId, p: Pid)
    requires Mid(s, at, {p}) && m in s.mutexes && s.mutexes[m].owner != None && p in s.procs
    requires s.procs[p].todo == Acquiring(m) || s.procs[p].todo == WaitingFor(m)
    ensures Mid(SetAsleep(SetMutex(s, m, s.mutexes[m].(waiting := s.mutexes[m].waiting + [p])), p, true),
      at[p := Queued(m)], {})
  {
    hide Queues;
    QueueUpQueues(s, at, m, p);
  }

  lemma {:induction false} QueueUpQueues(s: Sys, at: map<Pid, Place>, m: MutexId, p: Pid)
    requires Queues(s, at) && m in s.mutexes && p !in at
    ensures Queues(SetAsleep(SetMutex(s, m, s.mutexes[m].(waiting := s.mutexes[m].waiting + [p])), p, true),
      at[p := Queued(m)])
  {
    HoldsOther(s.ready, at, Ready, p, Queued(m));
    HoldsOther(s.sleeping, at, Sleeping, p, Queued(m));
    HoldsPush(s.mutexes[m].waiting, at, Queued(m), p);
    forall n <- s.mutexes | n != m
      ensures Holds(s.mutexes[n].waiting, at[p := Queued(m)], Queued(n))
    {
      HoldsOther(s.mutexes[n].waiting, at, Queued(n), p, Queued(m));
    }
    hide Holds;
  }

  lemma {:induction false} LieDown(s: Sys, at: map<Pid, Place>, p: Pid, until: nat)
    requires Mid(s, at, {p}) && p in s.procs && s.procs[p].todo == OwnCode
    ensures Mid(s.(procs := s.procs[p := s.procs[p].(sleepTick := until, asleep := true, onCpu := false)],
      sleeping := s.sleeping + [p]), at[p := Sleeping], {})
  {
    hide Queues, Holds;
    LieDownQueues(s, at, p);
    SameQueues(s.(sleeping := s.sleeping + [p]),
               s.(procs := s.procs[p := s.procs[p].(sleepTick := until, asleep := true, onCpu := false)],
                 sleeping := s.sleeping + [p]),
               at[p := Sleeping]);
  }

  lemma {:induction false} LieDownQueues(s: Sys, at: map<Pid, Place>, p: Pid)
    requires Queues(s, at) && p !in at
    ensures Queues(s.(sleeping := s.sleeping + [p]), at[p := Sleeping])
  {
    hide Holds;
    HoldsOther(s.ready, at, Ready, p, Sleeping);
    HoldsPush(s.sleeping, at, Sleeping, p);
    forall n <- s.mutexes
      ensures Holds(s.mutexes[n].waiting, at[p := Sleeping], Queued(n))
    {
      HoldsOther(s.mutexes[n].waiting, at, Queued(n), p, Sleeping);
    }
  }

  /** A sleeper taken out of the sleeping queue. */
  lemma {:induction false} GetUp(s: Sys, at: map<Pid, Place>, i: nat)
    requires Inv(s, at) && i < |s.sleeping|
    ensures s.sleeping[i] in at && at[s.sleeping[i]] == Sleeping
    ensures Mid(s.(sleeping := s.sleeping[..i] + s.sleeping[i + 1..]), at - {s.sleeping[i]}, {s.sleeping[i]})
  {
    var p := s.sleeping[i];
    assert p in s.sleeping;
    HoldsCut(s.sleeping, at, Sleeping, i);
    HoldsWithout(s.ready, at, Ready, p);
    forall n <- s.mutexes
      ensures Holds(s.mutexes[n].waiting, at - {p}, Queued(n))
    {
      HoldsWithout(s.mutexes[n].waiting, at, Queued(n), p);
    }
    hide Holds;
  }

  lemma {:induction false} WakeSleeperKeeps(s: Sys, at: map<Pid, Place>) returns (at': map<Pid, Place>)
    requires Inv(s, at)
    ensures Inv(WakeSleeper(s), at') && WakeSleeper(s).current == s.current
  {
    hide Queues, Records, WaitersOwned;
    var i := FirstDue(s, 0);
    at' := at;
    if i < |s.sleeping| {
      var p := s.sleeping[i];
      GetUp(s, at, i);
      var s1 := s.(sleeping := s.sleeping[..i] + s.sleeping[i + 1..]);
      PutReady(s1, at - {p}, {p}, p);
      assert {p} - {p} == {};
      at' := (at - {p})[p := Ready];
      assert s.current != IDLE ==> s.current != p;
    }
  }

  function Members(q: seq<Pid>): set<Pid> {
    set p | p in q
  }

  /** wakeup_waiting puts the whole queue, in order, behind the ready queue. */
  lemma {:induction false} WakeAllKeeps(s: Sys, at: map<Pid, Place>, queue: seq<Pid>) returns (at': map<Pid, Place>)
    requires Mid(s, at, Members(queue)) && NoDup(queue)
    ensures Mid(WakeAll(s, queue), at', {})
    ensures forall p <- at :: p in at' && at'[p] == at[p]
    ensures WakeAll(s, queue).current == s.current
    decreases |queue|
  {
    at' := at;
    if queue == [] {
      assert Members(queue) == {};
    } else {
      var p := queue[0];
      assert p in Members(queue);
      PutReady(s, at, Members(queue), p);
      assert Members(queue) - {p} == Members(queue[1..]);
      hide Mid, NoDup;
      assert NoDup(queue[1..]) by {
        Tail(queue);
      }
      at' := WakeAllKeeps(MakeReady(s, p), at[p := Ready], queue[1..]);
    }
  }

  lemma {:induction false} Tail(queue: seq<Pid>)
    requires NoDup(queue) && queue != []
    ensures NoDup(queue[1..])
  {
  }

  lemma {:induction false} ReleaseKeeps(s: Sys, at: map<Pid, Place>, m: MutexId) returns (at': map<Pid, Place>)
    requires Inv(s, at) && m in s.mutexes
    ensures Inv(ReleaseMutex(s, m), at')
  {
    var queue := s.mutexes[m].waiting;
    Disband(s, at, m);
    assert s.current !in Members(queue) by {
      assert Holds(queue, at, Queued(m));
    }
    hide Mid;
    at' := WakeAllKeeps(SetMutex(s, m, Mutex(None, [])), at - Members(queue), queue);
  }

  /** The whole waiting queue of a mutex leaves it at once. */
  lemma {:induction false} Disband(s: Sys, at: map<Pid, Place>, m: MutexId)
    requires Inv(s, at) && m in s.mutexes
    ensures Mid(SetMutex(s, m, Mutex(None, [])), at - Members(s.mutexes[m].waiting), Members(s.mutexes[m].waiting))
    ensures NoDup(s.mutexes[m].waiting)
  {
    DisbandQueues(s, at, m);
    DisbandRecords(s, at, m);
    hide Queues, Records;
  }

  lemma {:induction false} DisbandQueues(s: Sys, at: map<Pid, Place>, m: MutexId)
    requires Queues(s, at) && m in s.mutexes
    ensures Queues(SetMutex(s, m, Mutex(None, [])), at - Members(s.mutexes[m].waiting))
    ensures NoDup(s.mutexes[m].waiting)
  {
    var queue := s.mutexes[m].waiting;
    assert Holds(queue, at, Queued(m));
    HoldsWithoutAll(s.ready, at, Ready, queue);
    HoldsWithoutAll(s.sleeping, at, Sleeping, queue);
    forall n <- s.mutexes | n != m
      ensures Holds(s.mutexes[n].waiting, at - Members(queue), Queued(n))
    {
      HoldsWithoutAll(s.mutexes[n].waiting, at, Queued(n), queue);
    }
    assert Holds([], at - Members(queue), Queued(m));
    hide Holds;
  }

  lemma {:induction false} HoldsWithoutAll(queue: seq<Pid>, at: map<Pid, Place>, place: Place, gone: seq<Pid>)
    requires Holds(queue, at, place) && forall p <- gone :: p in at && at[p] != place
    ensures Holds(queue, at - Members(gone), place)
  {
  }

  lemma {:induction false} DisbandRecords(s: Sys, at: map<Pid, Place>, m: MutexId)
    requires Records(s, at, {}) && m in s.mutexes && Holds(s.mutexes[m].waiting, at, Queued(m))
    ensures Records(SetMutex(s, m, Mutex(None, [])), at - Members(s.mutexes[m].waiting), Members(s.mutexes[m].waiting))
  {
  }

  lemma {:induction false} ForkKeeps(s: Sys, at: map<Pid, Place>) returns (at': map<Pid, Place>)
    requires Inv(s, at) && InOwnCode(s)
    ensures Inv(ForkChild(s), at')
  {
    hide Queues, Holds;
    var child := s.lastPid + 1;
    assert child !in at;
    at' := at[child := Ready];
    PutReadyQueues(s, at, child);
    SameQueues(MakeReady(s, child), ForkChild(s), at');
  }

  /** Queues looks at the queues and the current process only. */
  lemma {:induction false} SameQueues(s: Sys, t: Sys, at: map<Pid, Place>)
    requires Queues(s, at) && t.ready == s.ready && t.sleeping == s.sleeping && t.mutexes == s.mutexes &&
      t.current == s.current
    ensures Queues(t, at)
  {
    hide Holds;
  }

  lemma {:induction false} ExitKeeps(s: Sys, at: map<Pid, Place>) returns (at': map<Pid, Place>)
    requires Inv(s, at) && InOwnCode(s)
    ensures Inv(ExitCurrent(s), at')
  {
    hide Queues, Holds;
    StepOff(s, at);
    var p := s.current;
    var s1 := s.(procs := s.procs[p := s.procs[p].(asleep := false, onCpu := false, finished := true)]);
    SameQueues(s, s1, at - {p});
    at' := SleepSwitch(s1, at - {p});
  }

  lemma {:induction false} SleepKeeps(s: Sys, at: map<Pid, Place>, milliseconds: nat) returns (at': map<Pid, Place>)
    requires Inv(s, at) && InOwnCode(s)
    ensures Inv(GoToSleep(s, milliseconds), at')
  {
    hide Mid;
    var p, until := s.current, s.tick + milliseconds / 10 + 1;
    StepOff(s, at);
    LieDown(s, at - {p}, p, until);
    at' := SleepSwitch(s.(procs := s.procs[p := s.procs[p].(sleepTick := until, asleep := true, onCpu := false)],
                         sleeping := s.sleeping + [p]),
                       (at - {p})[p := Sleeping]);
  }

  lemma {:induction false} TodoKeeps(s: Sys, at: map<Pid, Place>, todo: Todo)
    requires Inv(s, at) && s.current != IDLE && (todo != OwnCode ==> todo.m in s.mutexes)
    ensures Inv(SetTodo(s, s.current, todo), at)
  {
    hide Holds;
  }

  lemma {:induction false} OwnKeeps(s: Sys, at: map<Pid, Place>, m: MutexId)
    requires Inv(s, at) && m in s.mutexes
    ensures Inv(SetMutex(s, m, s.mutexes[m].(owner := Some(s.current))), at)
  {
    hide Holds;
  }

  lemma {:induction false} TryOrBlockKeeps(s: Sys, at: map<Pid, Place>, m: MutexId, todo: Todo)
      returns (at': map<Pid, Place>)
    requires Inv(s, at) && s.current != IDLE && m in s.mutexes && (todo == Acquiring(m) || todo == WaitingFor(m))
    ensures Inv(TryOrBlock(s, m, todo), at')
  {
    hide Mid;
    if s.mutexes[m].owner != None {
      TodoKeeps(s, at, todo);
      var s1, p := SetTodo(s, s.current, todo), s.current;
      StepOff(s1, at);
      CurrentListed(s, at);
      QueueUp(s1, at - {p}, m, p);
      at' := SleepSwitch(SetAsleep(SetMutex(s1, m, s1.mutexes[m].(waiting := s1.mutexes[m].waiting + [p])), p, true),
        (at - {p})[p := Queued(m)]);
    } else {
      TodoKeeps(s, at, OwnCode);
      at' := at;
      if todo == Acquiring(m) {
        OwnKeeps(SetTodo(s, s.current, OwnCode), at, m);
      }
    }
  }

  lemma {:induction false} CurrentListed(s: Sys, at: map<Pid, Place>)
    requires Inv(s, at) && s.current != IDLE
    ensures s.current in s.procs && !s.procs[s.current].finished
  {
  }

  lemma {:induction false} ReapKeeps(s: Sys, at: map<Pid, Place>, p: Pid)
    requires Inv(s, at) && p in s.procs && s.procs[p].finished
    ensures Inv(s.(procs := s.procs - {p}), at)
  {
    hide Holds;
  }

  lemma {:induction false} TickKeeps(s: Sys, at: map<Pid, Place>)
    requires Inv(s, at)
    ensures Inv(s.(tick := s.tick + 1), at)
  {
    hide Holds;
  }

  /** Every step keeps every process in one place, flags in line with it, and waiters only behind an owner. */
  lemma {:induction false} NextKeeps(s: Sys, at: map<Pid, Place>, step: Step) returns (at': map<Pid, Place>)
    requires Inv(s, at) && Enabled(s, step)
    ensures Inv(Next(s, step), at')
  {
    hide Inv;
    match step
    case Yield => at' := YieldSwitch(s, at);
    case UserTick =>
      TickKeeps(s, at);
      at' := WakeSleeperKeeps(s.(tick := s.tick + 1), at);
      at' := YieldSwitch(WakeSleeper(s.(tick := s.tick + 1)), at');
    case KernelTick => TickKeeps(s, at); at' := at;
    case Sleep(milliseconds) => at' := SleepKeeps(s, at, milliseconds);
    case Acquire(m) => at' := TryOrBlockKeeps(s, at, m, Acquiring(m));
    case Wait(m) => at' := TryOrBlockKeeps(s, at, m, WaitingFor(m));
    case TryAcquire(m) =>
      if s.mutexes[m].owner == None {
        OwnKeeps(s, at, m);
      }
      at' := at;
    case Retry => at' := TryOrBlockKeeps(s, at, s.procs[s.current].todo.m, s.procs[s.current].todo);
    case Release(m) => at' := ReleaseKeeps(s, at, m);
    case Fork => at' := ForkKeeps(s, at);
    case Exit => at' := ExitKeeps(s, at);
    case Reap(p) =>
      if s.procs[p].finished {
        ReapKeeps(s, at, p);
      }
      at' := at;
  }

  lemma {:induction false} RunKeeps(s: Sys, at: map<Pid, Place>, steps: seq<Step>) returns (at': map<Pid, Place>)
    requires Inv(s, at) && Executable(s, steps)
    ensures Inv(After(s, steps), at')
    decreases |steps|
  {
    hide Inv;
    at' := at;
    if steps != [] {
      at' := NextKeeps(s, at, steps[0]);
      at' := RunKeeps(Next(s, steps[0]), at', steps[1..]);
    }
  }
}
