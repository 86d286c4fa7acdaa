/**
 What the invariant and the queues promise over whole runs: one place each, bounded waiting, mutual exclusion.
 */
module SchedulerTheorems {
  import opened Options
  import opened Scheduling
  import opened SchedulerInvariant
  import opened SchedulerRecords

  /** The machine as the first process is entered: nobody queued anywhere, every mutex as mutex_init leaves it. */
  ghost predicate Boot(s: Sys) {
    s.current == INIT && s.ready == [] && s.sleeping == [] && s.lastPid == INIT &&
    s.procs == map[INIT := Process(false, false, false, 0, OwnCode)] &&
    forall m <- s.mutexes :: s.mutexes[m] == Mutex(None, [])
  }

  /** Process `p` is found at index `i` of a place; the CPU has index 0 only. */
  predicate FoundAt(s: Sys, p: Pid, place: Place, i: nat) {
    match place
    case Cpu => s.current == p && i == 0
    case Ready => i < |s.ready| && s.ready[i] == p
    case Sleeping => i < |s.sleeping| && s.sleeping[i] == p
    case Queued(m) => m in s.mutexes && i < |s.mutexes[m].waiting| && s.mutexes[m].waiting[i] == p
  }

  /** Over every run from boot, an unfinished process is found at one place, once, and a finished one nowhere. */
  lemma {:induction false} OnePlace(s: Sys, steps: seq<Step>, p: Pid)
    requires Boot(s) && Executable(s, steps) && p != IDLE
    ensures var t := After(s, steps);
      ((p in t.procs && !t.procs[p].finished) <==> exists place, i :: FoundAt(t, p, place, i)) &&
      forall a, b, i, j :: FoundAt(t, p, a, i) && FoundAt(t, p, b, j) ==> a == b && i == j
  {
    var at := FromBoot(s, steps);
    OnePlaceNow(After(s, steps), at, p);
  }

  lemma {:induction false} FromBoot(s: Sys, steps: seq<Step>) returns (at: map<Pid, Place>)
    requires Boot(s) && Executable(s, steps)
    ensures Inv(After(s, steps), at)
  {
    at := map[INIT := Cpu];
    assert forall m <- s.mutexes :: Holds(s.mutexes[m].waiting, at, Queued(m));
    assert Queues(s, at) && Records(s, at, {});
    at := RunKeeps(s, at, steps);
  }

  lemma {:induction false} OnePlaceNow(s: Sys, at: map<Pid, Place>, p: Pid)
    requires Inv(s, at) && p != IDLE
    ensures (p in s.procs && !s.procs[p].finished) <==> exists place, i :: FoundAt(s, p, place, i)
    ensures forall a, b, i, j :: FoundAt(s, p, a, i) && FoundAt(s, p, b, j) ==> a == b && i == j
  {
    forall place, i | FoundAt(s, p, place, i)
      ensures p in at && at[p] == place
    {
      FoundThere(s, at, p, place, i);
    }
    forall a, i, j | FoundAt(s, p, a, i) && FoundAt(s, p, a, j)
      ensures i == j
    {
      FoundThere(s, at, p, a, i);
    }
    if p in s.procs && !s.procs[p].finished {
      assert p in at;
      var i := IndexOf(s, at, p);
      assert FoundAt(s, p, at[p], i);
    }
  }

  lemma {:induction false} FoundThere(s: Sys, at: map<Pid, Place>, p: Pid, place: Place, i: nat)
    requires Inv(s, at) && p != IDLE && FoundAt(s, p, place, i)
    ensures p in at && at[p] == place
    ensures forall j :: FoundAt(s, p, place, j) ==> j == i
  {
    if place.Queued? {
      assert Holds(s.mutexes[place.m].waiting, at, place);
    }
  }

  lemma {:induction false} IndexOf(s: Sys, at: map<Pid, Place>, p: Pid) returns (i: nat)
    requires Inv(s, at) && p in at
    ensures FoundAt(s, p, at[p], i)
  {
    match at[p]
    case Cpu => i := 0;
    case Ready =>
      assert p in s.ready;
      i :| i < |s.ready| && s.ready[i] == p;
    case Sleeping =>
      assert p in s.sleeping;
      i :| i < |s.sleeping| && s.sleeping[i] == p;
    case Queued(m) =>
      assert Holds(s.mutexes[m].waiting, at, Queued(m));
      assert p in s.mutexes[m].waiting;
      i :| i < |s.mutexes[m].waiting| && s.mutexes[m].waiting[i] == p;
  }

  // ---- Bounded waiting for the CPU ----

  lemma {:induction false} WakeAllReady(s: Sys, queue: seq<Pid>)
    ensures WakeAll(s, queue).ready == s.ready + queue
    ensures WakeAll(s, queue).current == s.current
    ensures WakeAll(s, queue).mutexes == s.mutexes && WakeAll(s, queue).sleeping == s.sleeping
    ensures WakeAll(s, queue).tick == s.tick
    decreases |queue|
  {
    if queue != [] {
      WakeAllReady(MakeReady(s, queue[0]), queue[1..]);
      assert s.ready + [queue[0]] + queue[1..] == s.ready + queue;
    }
  }

  function First(q: seq<Pid>): Pid {
    if q == [] then IDLE else q[0]
  }

  function Rest(q: seq<Pid>): seq<Pid> {
    if q == [] then [] else q[1..]
  }

  function AfterWake(s: Sys): seq<Pid> {
    var i := FirstDue(s, 0);
    if i < |s.sleeping| then s.sleeping[..i] + s.sleeping[i + 1..] else s.sleeping
  }

  /** What a step leaves alone or changes, as far as queues go: it runs `current` on, with `ready` behind it. */
  ghost predicate Shape(s: Sys, t: Sys, ready: seq<Pid>, switched: bool) {
    if switched then t.ready == Rest(ready) && t.current == First(ready) else t.ready == ready && t.current == s.current
  }

  lemma {:induction false} ScheduleShape(s: Sys, sleep: bool)
    ensures Shape(s, Schedule(s, sleep), s.ready + (if s.current != IDLE && !sleep then [s.current] else []), true)
    ensures var t := Schedule(s, sleep); t.sleeping == s.sleeping && t.mutexes == s.mutexes && t.tick == s.tick
  {
    var s1 := SetOnCpu(s, s.current, false);
    assert s1.ready == s.ready && s1.sleeping == s.sleeping && s1.mutexes == s.mutexes && s1.tick == s.tick;
    DispatchShape(s1);
    if s.current != IDLE && !sleep {
      DispatchShape(MakeReady(s1, s.current));
    }
    hide Dispatch, SetOnCpu;
  }

  lemma {:induction false} DispatchShape(s: Sys)
    ensures Shape(s, Dispatch(s), s.ready, true)
    ensures Dispatch(s).sleeping == s.sleeping && Dispatch(s).mutexes == s.mutexes && Dispatch(s).tick == s.tick
  {
  }

  lemma {:induction false} TryShape(s: Sys, m: MutexId, todo: Todo)
    requires m in s.mutexes
    ensures var t := TryOrBlock(s, m, todo);
      Shape(s, t, s.ready, s.mutexes[m].owner != None) && t.sleeping == s.sleeping && t.tick == s.tick &&
      t.mutexes == s.mutexes[m :=
        if s.mutexes[m].owner != None then s.mutexes[m].(waiting := s.mutexes[m].waiting + [s.current])
        else if todo == Acquiring(m) then s.mutexes[m].(owner := Some(s.current))
        else s.mutexes[m]]
  {
    hide Schedule, Dispatch;
    if s.mutexes[m].owner != None {
      var s1 := SetTodo(s, s.current, todo);
      var s2 := SetMutex(s1, m, s1.mutexes[m].(waiting := s1.mutexes[m].waiting + [s1.current]));
      ScheduleShape(SetAsleep(s2, s.current, true), true);
    }
  }

  lemma {:induction false} SleepShape(s: Sys, milliseconds: nat)
    requires s.current in s.procs
    ensures var t := GoToSleep(s, milliseconds);
      Shape(s, t, s.ready, true) && t.sleeping == s.sleeping + [s.current] && t.mutexes == s.mutexes && t.tick == s.tick
  {
    hide Schedule, Dispatch;
    var p := s.procs[s.current].(sleepTick := s.tick + milliseconds / 10 + 1, asleep := true, onCpu := false);
    ScheduleShape(s.(procs := s.procs[s.current := p], sleeping := s.sleeping + [s.current]), true);
  }

  lemma {:induction false} ExitShape(s: Sys)
    requires s.current in s.procs
    ensures var t := ExitCurrent(s);
      Shape(s, t, s.ready, true) && t.sleeping == s.sleeping && t.mutexes == s.mutexes && t.tick == s.tick
  {
    hide Schedule, Dispatch;
    var p := s.procs[s.current].(asleep := false, onCpu := false, finished := true);
    ScheduleShape(s.(procs := s.procs[s.current := p]), true);
  }

  lemma {:induction false} TickShape(s: Sys)
    requires s.current != IDLE
    ensures var t := Schedule(WakeSleeper(s), false); var i := FirstDue(s, 0);
      Shape(s, t, s.ready + (if i < |s.sleeping| then [s.sleeping[i]] else []) + [s.current], true) &&
      t.sleeping == AfterWake(s) && t.mutexes == s.mutexes && t.tick == s.tick
  {
    hide Schedule, Dispatch;
    ScheduleShape(WakeSleeper(s), false);
  }

  lemma {:induction false} ReleaseShape(s: Sys, m: MutexId)
    requires m in s.mutexes
    ensures var t := ReleaseMutex(s, m);
      t.ready == s.ready + s.mutexes[m].waiting && t.current == s.current && t.sleeping == s.sleeping &&
      t.tick == s.tick &&
      t.mutexes == s.mutexes[m := Mutex(None, [])]
  {
    WakeAllReady(SetMutex(s, m, Mutex(None, [])), s.mutexes[m].waiting);
  }

  /** A step only ever adds to the end of the ready queue, and a switch takes its head. */
  lemma {:induction false} ReadyShape(s: Sys, step: Step) returns (added: seq<Pid>)
    requires Enabled(s, step)
    ensures if Switches(s, step)
            then Next(s, step).ready == Rest(s.ready + added) && Next(s, step).current == First(s.ready + added)
            else Next(s, step).ready == s.ready + added && Next(s, step).current == s.current
  {
    hide Schedule, Dispatch, WakeAll, TryOrBlock, GoToSleep, ExitCurrent, ReleaseMutex, WakeSleeper;
    added := [];
    match step
    case Yield =>
      ScheduleShape(s, false);
      added := if s.current != IDLE then [s.current] else [];
    case UserTick =>
      var s1 := s.(tick := s.tick + 1);
      TickShape(s1);
      var i := FirstDue(s1, 0);
      added := (if i < |s.sleeping| then [s.sleeping[i]] else []) + [s.current];
      assert s.ready + (if i < |s.sleeping| then [s.sleeping[i]] else []) + [s.current] == s.ready + added;
    case KernelTick =>
    case Sleep(ms) => SleepShape(s, ms);
    case Acquire(m) => TryShape(s, m, Acquiring(m));
    case Wait(m) => TryShape(s, m, WaitingFor(m));
    case TryAcquire(m) =>
    case Retry => TryShape(s, s.procs[s.current].todo.m, s.procs[s.current].todo);
    case Release(m) =>
      ReleaseShape(s, m);
      added := s.mutexes[m].waiting;
    case Fork => added := [s.lastPid + 1];
    case Exit => ExitShape(s);
    case Reap(p) =>
  }

  /** A ready process moves up one place for each switch, whatever the steps in between do. */
  lemma {:induction false} QueueAdvance(s: Sys, steps: seq<Step>, k: nat)
    requires Executable(s, steps) && k < |s.ready| && Switched(s, steps) <= k
    ensures k - Switched(s, steps) < |After(s, steps).ready|
    ensures After(s, steps).ready[k - Switched(s, steps)] == s.ready[k]
    decreases |steps|
  {
    if steps != [] {
      var added := ReadyShape(s, steps[0]);
      QueueAdvance(Next(s, steps[0]), steps[1..], if Switches(s, steps[0]) then k - 1 else k);
    }
  }

  /** Bounded waiting: position k of the ready queue means on the CPU after exactly k+1 switches. */
  lemma {:induction false} QueueTurn(s: Sys, steps: seq<Step>, last: Step, k: nat)
    requires Executable(s, steps) && k < |s.ready| && Switched(s, steps) == k
    requires Enabled(After(s, steps), last) && Switches(After(s, steps), last)
    ensures Next(After(s, steps), last).current == s.ready[k]
  {
    QueueAdvance(s, steps, k);
    var added := ReadyShape(After(s, steps), last);
  }

  // ---- Sleepers ----

  function UserTicks(steps: seq<Step>): nat {
    if steps == [] then 0 else (if steps[0] == UserTick then 1 else 0) + UserTicks(steps[1..])
  }

  /** What a step does to the sleeping queue: a tick in user mode takes out the first due sleeper, and nothing else
      takes anybody out. */
  lemma {:induction false} SleepingShape(s: Sys, step: Step)
    requires Enabled(s, step)
    ensures if step == UserTick then Next(s, step).sleeping == AfterWake(s.(tick := s.tick + 1))
            else s.sleeping <= Next(s, step).sleeping
    ensures Next(s, step).tick == s.tick + if step.UserTick? || step.KernelTick? then 1 else 0
  {
    hide Schedule, Dispatch, WakeAll, TryOrBlock, GoToSleep, ExitCurrent, ReleaseMutex, WakeSleeper;
    match step
    case Yield => ScheduleShape(s, false);
    case UserTick => TickShape(s.(tick := s.tick + 1));
    case KernelTick =>
    case Sleep(ms) => SleepShape(s, ms);
    case Acquire(m) => TryShape(s, m, Acquiring(m));
    case Wait(m) => TryShape(s, m, WaitingFor(m));
    case TryAcquire(m) =>
    case Retry => TryShape(s, s.procs[s.current].todo.m, s.procs[s.current].todo);
    case Release(m) => ReleaseShape(s, m);
    case Fork =>
    case Exit => ExitShape(s);
    case Reap(p) =>
  }

  lemma {:induction false} SleeperListed(s: Sys, at: map<Pid, Place>, k: nat)
    requires Inv(s, at) && k < |s.sleeping|
    ensures s.sleeping[k] in s.procs && !s.procs[s.sleeping[k]].finished && s.sleeping[k] != s.current &&
      s.sleeping[k] <= s.lastPid
    ensures NoDup(s.sleeping)
  {
    assert s.sleeping[k] in s.sleeping;
    assert s.sleeping[k] in at && at[s.sleeping[k]] == Sleeping;
  }

  /** Cutting out one element leaves the others, in order. */
  lemma {:induction false} CutKeeps(q: seq<Pid>, i: nat, k: nat)
    requires i < |q| && k < |q| && k != i
    ensures (q[..i] + q[i + 1..])[if k < i then k else k - 1] == q[k]
    ensures q[k] in q[..i] + q[i + 1..]
  {
    assert (q[..i] + q[i + 1..])[if k < i then k else k - 1] == q[k];
  }

  lemma {:induction false} CutGone(q: seq<Pid>, i: nat)
    requires NoDup(q) && i < |q|
    ensures q[i] !in q[..i] + q[i + 1..]
  {
  }

  /** No sleeper is woken before its time. */
  lemma {:induction false} NotBeforeDue(s: Sys, step: Step, k: nat)
    requires Enabled(s, step) && k < |s.sleeping| && !Due(s.(tick := s.tick + 1), s.sleeping[k])
    ensures s.sleeping[k] in Next(s, step).sleeping
  {
    SleepingShape(s, step);
    hide Next;
    var i := FirstDue(s.(tick := s.tick + 1), 0);
    if step == UserTick && i < |s.sleeping| {
      CutKeeps(s.sleeping, i, k);
    }
  }

  /** One step brings a due sleeper out of the queue, or leaves it in place, or on a user tick moves it up. */
  lemma {:induction false} SleeperStep(s: Sys, at: map<Pid, Place>, step: Step, k: nat)
    requires Inv(s, at) && Enabled(s, step) && k < |s.sleeping| && Due(s, s.sleeping[k])
    requires s.sleeping[k] in Next(s, step).sleeping
    ensures Due(Next(s, step), s.sleeping[k])
    ensures if step == UserTick
            then k > 0 && k - 1 < |Next(s, step).sleeping| && Next(s, step).sleeping[k - 1] == s.sleeping[k]
            else k < |Next(s, step).sleeping| && Next(s, step).sleeping[k] == s.sleeping[k]
  {
    SleepingShape(s, step);
    SleeperListed(s, at, k);
    StepRecords(s, step, s.sleeping[k]);
    hide Inv, Next, Enabled;
    if step == UserTick {
      var t := s.(tick := s.tick + 1);
      var i := FirstDue(t, 0);
      assert Due(t, s.sleeping[k]);
      assert i <= k;
      CutGone(s.sleeping, i);
      if i < k {
        CutKeeps(s.sleeping, i, k);
      }
    }
  }

  /** A due sleeper at position k is out of the queue by the time k+1 ticks have come in user mode. */
  lemma {:induction false} SleeperWoken(s: Sys, at: map<Pid, Place>, steps: seq<Step>, k: nat) returns (n: nat)
    requires Inv(s, at) && Executable(s, steps) && k < |s.sleeping| && Due(s, s.sleeping[k]) && UserTicks(steps) > k
    ensures n <= |steps| && Executable(s, steps[..n]) && s.sleeping[k] !in After(s, steps[..n]).sleeping
    decreases |steps|
  {
    hide Inv, Next, Enabled;
    var p, t := s.sleeping[k], Next(s, steps[0]);
    assert steps[..1] == [steps[0]] && steps[..1][1..] == [];
    if p !in t.sleeping {
      return 1;
    }
    SleeperStep(s, at, steps[0], k);
    var at' := NextKeeps(s, at, steps[0]);
    n := SleeperWoken(t, at', steps[1..], if steps[0] == UserTick then k - 1 else k);
    assert steps[1..][..n] == steps[..n + 1][1..];
    n := n + 1;
  }

  /** A sleeper leaves the queue in a step exactly when the step is a tick in user mode and it is the first one due. */
  lemma {:induction false} LeavesExactly(s: Sys, at: map<Pid, Place>, step: Step, k: nat)
    requires Inv(s, at) && Enabled(s, step) && k < |s.sleeping|
    ensures s.sleeping[k] !in Next(s, step).sleeping <==> step == UserTick && k == FirstDue(s.(tick := s.tick + 1), 0)
  {
    SleepingShape(s, step);
    SleeperListed(s, at, k);
    hide Inv, Next, Enabled;
    if step == UserTick {
      var i := FirstDue(s.(tick := s.tick + 1), 0);
      if i < |s.sleeping| {
        if i == k {
          CutGone(s.sleeping, k);
        } else {
          CutKeeps(s.sleeping, i, k);
        }
      }
    }
  }

  /** Sleepers i and j are both due. */
  predicate BothDue(s: Sys, i: nat, j: nat) {
    i < j < |s.sleeping| && Due(s, s.sleeping[i]) && Due(s, s.sleeping[j])
  }

  /** wakeup_sleeping leaves no due sleeper behind exactly when no two of them are due: it wakes the first and stops. */
  lemma {:induction false} WakesAllExactly(s: Sys)
    requires NoDup(s.sleeping) && forall p <- s.sleeping :: p in s.procs
    ensures (forall p <- WakeSleeper(s).sleeping :: !Due(WakeSleeper(s), p)) <==> !exists i, j :: BothDue(s, i, j)
  {
    hide Due, WakeSleeper, FirstDue;
    var t, i := WakeSleeper(s), FirstDue(s, 0);
    WakeEffect(s);
    if i < |s.sleeping| {
      forall j | 0 <= j < |s.sleeping| && j != i
        ensures s.sleeping[j] in t.sleeping && (Due(s, s.sleeping[j]) ==> BothDue(s, i, j))
      {
        CutKeeps(s.sleeping, i, j);
      }
      forall p <- t.sleeping
        ensures exists j :: 0 <= j < |s.sleeping| && j != i && s.sleeping[j] == p
      {
        FromCut(s.sleeping, i, p);
      }
    }
  }

  lemma {:induction false} WakeEffect(s: Sys)
    ensures WakeSleeper(s).sleeping == AfterWake(s)
    ensures forall p <- s.procs :: Due(WakeSleeper(s), p) == Due(s, p)
  {
  }

  lemma {:induction false} FromCut(q: seq<Pid>, i: nat, p: Pid)
    requires NoDup(q) && i < |q| && p in q[..i] + q[i + 1..]
    ensures p in q && exists j :: 0 <= j < |q| && j != i && q[j] == p
  {
    var j :| 0 <= j < |q| - 1 && (q[..i] + q[i + 1..])[j] == p;
    assert q[if j < i then j else j + 1] == p;
  }

  /** The same on every reachable state. */
  lemma {:induction false} WakesAllReachable(s: Sys, steps: seq<Step>)
    requires Boot(s) && Executable(s, steps)
    ensures var t := After(s, steps);
      (forall p <- WakeSleeper(t).sleeping :: !Due(WakeSleeper(t), p)) <==> !exists i, j :: BothDue(t, i, j)
  {
    var at := FromBoot(s, steps);
    var t := After(s, steps);
    forall p <- t.sleeping
      ensures p in t.procs
    {
      var k :| 0 <= k < |t.sleeping| && t.sleeping[k] == p;
      SleeperListed(t, at, k);
    }
    if t.sleeping != [] {
      SleeperListed(t, at, 0);
    }
    hide Inv;
    WakesAllExactly(t);
  }

  /** A run in which it happens: two processes lie down for the same tick, and after that tick one is still asleep,
      although due. */
  lemma {:induction false} DueStaysAsleep(s: Sys) returns (steps: seq<Step>)
    requires Boot(s) && s.tick == 0
    ensures Executable(s, steps) && After(s, steps).sleeping == [INIT + 1] && Due(After(s, steps), INIT + 1)
    ensures steps[|steps| - 1] == UserTick
  {
    var s1 := Next(s, Fork);
    var s2 := Next(s1, Fork);
    assert s2.ready == [INIT + 1, INIT + 2] && s2.current == INIT && Fit(s2, INIT) && Fit(s2, INIT + 1) &&
      Fit(s2, INIT + 2);
    assert s2.sleeping == [] && s2.tick == 0 && s2.lastPid == INIT + 2;
    hide Next;
    LieDownNow(s2);
    var s3 := Next(s2, Sleep(0));
    assert s2.ready[1..] == [INIT + 2] && s2.sleeping + [INIT] == [INIT];
    LieDownNow(s3);
    var s4 := Next(s3, Sleep(0));
    assert s3.ready[1..] == [] && s3.sleeping + [INIT + 1] == [INIT, INIT + 1];
    LastTick(s4);
    steps := [Fork] + ([Fork] + ([Sleep(0)] + ([Sleep(0)] + [UserTick])));
    AfterCons(s4, UserTick, []);
    AfterCons(s3, Sleep(0), [UserTick]);
    AfterCons(s2, Sleep(0), [Sleep(0)] + [UserTick]);
    AfterCons(s1, Fork, [Sleep(0)] + ([Sleep(0)] + [UserTick]));
    AfterCons(s, Fork, [Fork] + ([Sleep(0)] + ([Sleep(0)] + [UserTick])));
  }

  predicate Fit(s: Sys, p: Pid) {
    p in s.procs && !s.procs[p].finished && s.procs[p].todo == OwnCode
  }

  /** The current process sleeps for no time at all, and the next one runs. */
  lemma {:induction false} LieDownNow(s: Sys)
    requires s.current != IDLE && Fit(s, s.current) && s.ready != []
    ensures Enabled(s, Sleep(0))
    ensures var t := Next(s, Sleep(0));
      t.current == s.ready[0] && t.ready == s.ready[1..] && t.sleeping == s.sleeping + [s.current] &&
      t.tick == s.tick &&
      t.lastPid == s.lastPid && s.current in t.procs && t.procs[s.current].sleepTick == s.tick + 1
    ensures forall p :: Fit(s, p) ==> Fit(Next(s, Sleep(0)), p)
    ensures forall p :: Fit(s, p) && p != s.current ==> Next(s, Sleep(0)).procs[p].sleepTick == s.procs[p].sleepTick
  {
  }

  lemma {:induction false} LastTick(s: Sys)
    requires s.current == INIT + 2 && Fit(s, s.current) && s.sleeping == [INIT, INIT + 1] && s.tick == 0
    requires Fit(s, INIT) && Fit(s, INIT + 1) && s.procs[INIT].sleepTick == s.procs[INIT + 1].sleepTick == 1
    requires INIT + 1 <= s.lastPid
    ensures Enabled(s, UserTick) && Next(s, UserTick).sleeping == [INIT + 1] && Due(Next(s, UserTick), INIT + 1)
  {
    hide Next;
    assert InOwnCode(s);
    SleepingShape(s, UserTick);
    StepRecords(s, UserTick, INIT + 1);
    assert FirstDue(s.(tick := 1), 0) == 0;
    assert s.sleeping[..0] + s.sleeping[1..] == [INIT + 1];
  }

  lemma {:induction false} AfterCons(s: Sys, step: Step, rest: seq<Step>)
    requires Enabled(s, step) && Executable(Next(s, step), rest)
    ensures Executable(s, [step] + rest) && After(s, [step] + rest) == After(Next(s, step), rest)
  {
    assert ([step] + rest)[0] == step && ([step] + rest)[1..] == rest;
    hide Next;
  }

  /** Only a tick in user mode wakes sleepers: once the idle thread runs with nobody ready, no sleeper is ever woken. */
  lemma {:induction false} IdleNeverWakes(s: Sys, steps: seq<Step>)
    requires s.current == IDLE && s.ready == [] && IDLE !in s.procs && Executable(s, steps)
    ensures After(s, steps) == s.(tick := After(s, steps).tick)
    decreases |steps|
  {
    if steps != [] {
      IdleNeverWakes(Next(s, steps[0]), steps[1..]);
    }
  }

  // ---- Mutexes ----

  /** A mutex with waiters has an owner, in every reachable state: no waiter is left behind by a release. */
  lemma {:induction false} NoLostWakeup(s: Sys, steps: seq<Step>, m: MutexId)
    requires Boot(s) && Executable(s, steps) && m in After(s, steps).mutexes
    ensures After(s, steps).mutexes[m].waiting != [] ==> After(s, steps).mutexes[m].owner != None
  {
    var at := FromBoot(s, steps);
  }

  /** A release frees the mutex and makes each of its waiters ready, once and in order. */
  lemma {:induction false} ReleaseWakes(s: Sys, at: map<Pid, Place>, m: MutexId)
    requires Inv(s, at) && Enabled(s, Release(m))
    ensures var t := Next(s, Release(m));
      m in t.mutexes && t.mutexes[m] == Mutex(None, []) && t.ready == s.ready + s.mutexes[m].waiting && NoDup(t.ready)
  {
    WakeAllReady(SetMutex(s, m, Mutex(None, [])), s.mutexes[m].waiting);
    var at' := NextKeeps(s, at, Release(m));
    assert Holds(Next(s, Release(m)).ready, at', Ready);
  }

  /** The mutex the step takes for the current process, if any. */
  function Takes(s: Sys, step: Step): Option<MutexId>
    requires Enabled(s, step)
  {
    match step
    case Acquire(m) => if s.mutexes[m].owner == None then Some(m) else None
    case TryAcquire(m) => if s.mutexes[m].owner == None then Some(m) else None
    case Retry =>
      var todo := s.procs[s.current].todo;
      if s.mutexes[todo.m].owner == None && todo.Acquiring? then Some(todo.m) else None
    case _ => None
  }

  /** Pairs of process and mutex that are between taking and releasing, after one more step. */
  function HeldNext(s: Sys, held: set<(Pid, MutexId)>, step: Step): set<(Pid, MutexId)>
    requires Enabled(s, step)
  {
    if Takes(s, step).Some? then held + {(s.current, Takes(s, step).value)}
    else if step.Release? then held - {(s.current, step.m)}
    else held
  }

  function HeldAfter(s: Sys, held: set<(Pid, MutexId)>, steps: seq<Step>): set<(Pid, MutexId)>
    requires Executable(s, steps)
    decreases |steps|
  {
    if steps == [] then held else HeldAfter(Next(s, steps[0]), HeldNext(s, held, steps[0]), steps[1..])
  }

  /** Every release in the run is by the mutex's owner, which mutex_release itself does not check. */
  predicate Disciplined(s: Sys, steps: seq<Step>)
    requires Executable(s, steps)
    decreases |steps|
  {
    steps == [] ||
    ((steps[0].Release? ==> s.mutexes[steps[0].m].owner == Some(s.current)) &&
      Disciplined(Next(s, steps[0]), steps[1..]))
  }

  /** Owners change only by taking and releasing. */
  lemma {:induction false} OwnerShape(s: Sys, step: Step, m: MutexId)
    requires Enabled(s, step) && m in s.mutexes
    ensures m in Next(s, step).mutexes
    ensures Next(s, step).mutexes[m].owner ==
            if Takes(s, step) == Some(m) then Some(s.current)
            else if step == Release(m) then None
            else s.mutexes[m].owner
  {
    hide Schedule, Dispatch, WakeAll, TryOrBlock, GoToSleep, ExitCurrent, ReleaseMutex, WakeSleeper;
    match step
    case Yield => ScheduleShape(s, false);
    case UserTick => TickShape(s.(tick := s.tick + 1));
    case KernelTick =>
    case Sleep(ms) => SleepShape(s, ms);
    case Acquire(n) => TryShape(s, n, Acquiring(n));
    case Wait(n) => TryShape(s, n, WaitingFor(n));
    case TryAcquire(n) =>
    case Retry => TryShape(s, s.procs[s.current].todo.m, s.procs[s.current].todo);
    case Release(n) => ReleaseShape(s, n);
    case Fork =>
    case Exit => ExitShape(s);
    case Reap(p) =>
  }

  ghost predicate HoldersOwn(s: Sys, held: set<(Pid, MutexId)>) {
    forall h <- held :: h.1 in s.mutexes && s.mutexes[h.1].owner == Some(h.0)
  }

  lemma {:induction false} HoldersStep(s: Sys, held: set<(Pid, MutexId)>, step: Step)
    requires Enabled(s, step) && HoldersOwn(s, held)
    requires step.Release? ==> s.mutexes[step.m].owner == Some(s.current)
    ensures HoldersOwn(Next(s, step), HeldNext(s, held, step))
  {
    hide Next;
    if Takes(s, step).Some? {
      OwnerShape(s, step, Takes(s, step).value);
    }
    forall h <- held
      ensures h in HeldNext(s, held, step) ==>
        h.1 in Next(s, step).mutexes && Next(s, step).mutexes[h.1].owner == Some(h.0)
    {
      OwnerShape(s, step, h.1);
    }
  }

  lemma {:induction false} HoldersRun(s: Sys, held: set<(Pid, MutexId)>, steps: seq<Step>)
    requires Executable(s, steps) && Disciplined(s, steps) && HoldersOwn(s, held)
    ensures HoldersOwn(After(s, steps), HeldAfter(s, held, steps))
    decreases |steps|
  {
    hide Next, HoldersOwn;
    if steps != [] {
      HoldersStep(s, held, steps[0]);
      HoldersRun(Next(s, steps[0]), HeldNext(s, held, steps[0]), steps[1..]);
    }
  }

  /** Mutual exclusion, if only owners release. */
  lemma {:induction false} MutualExclusion(s: Sys, steps: seq<Step>, p: Pid, q: Pid, m: MutexId)
    requires Executable(s, steps) && Disciplined(s, steps)
    requires (p, m) in HeldAfter(s, {}, steps) && (q, m) in HeldAfter(s, {}, steps)
    ensures p == q
  {
    HoldersRun(s, {}, steps);
  }

  /** A release leaves every holder the owner of what it holds exactly when the process that releases is the only holder
      of the mutex, if there is one at all; this can be seen before the call. */
  lemma {:induction false} HarmlessRelease(s: Sys, held: set<(Pid, MutexId)>, m: MutexId)
    requires Enabled(s, Release(m)) && HoldersOwn(s, held)
    ensures HoldersOwn(Next(s, Release(m)), HeldNext(s, held, Release(m))) <==>
            forall h <- held | h.1 == m :: h.0 == s.current
  {
    hide Next;
    var t, after := Next(s, Release(m)), HeldNext(s, held, Release(m));
    forall h <- held
      ensures h.1 in t.mutexes && t.mutexes[h.1].owner == if h.1 == m then None else Some(h.0)
      ensures h in after <==> h != (s.current, m)
    {
      OwnerShape(s, Release(m), h.1);
    }
    if h :| h in held && h.1 == m && h.0 != s.current {
      assert h in after;
    }
  }

  /** Without that discipline it fails: a process frees a mutex it does not own and takes it as well. */
  lemma {:induction false} ForeignRelease(s: Sys, m: MutexId) returns (steps: seq<Step>)
    requires Boot(s) && m in s.mutexes
    ensures Executable(s, steps) && !Disciplined(s, steps)
    ensures (INIT, m) in HeldAfter(s, {}, steps) && (INIT + 1, m) in HeldAfter(s, {}, steps)
  {
    var s1 := Next(s, Fork);
    var s2 := Next(s1, Acquire(m));
    var s3 := Next(s2, Yield);
    assert s3.current == INIT + 1 && s3.procs[INIT + 1].todo == OwnCode && s3.mutexes[m].owner == Some(INIT);
    var s4 := Next(s3, Release(m));
    assert s4.current == INIT + 1 && s4.mutexes[m].owner == None && InOwnCode(s4);
    var held := {(INIT, m)};
    assert held - {(INIT + 1, m)} == held && {} + {(INIT, m)} == held;
    assert HeldNext(s, {}, Fork) == {} && HeldNext(s1, {}, Acquire(m)) == held && HeldNext(s2, held, Yield) == held;
    assert HeldNext(s3, held, Release(m)) == held && HeldNext(s4, held, Acquire(m)) == held + {(INIT + 1, m)};
    hide Next;
    RunCons(s4, held, Acquire(m), []);
    RunCons(s3, held, Release(m), [Acquire(m)]);
    RunCons(s2, held, Yield, [Release(m)] + [Acquire(m)]);
    RunCons(s1, {}, Acquire(m), [Yield] + ([Release(m)] + [Acquire(m)]));
    RunCons(s, {}, Fork, [Acquire(m)] + ([Yield] + ([Release(m)] + [Acquire(m)])));
    steps := [Fork] + ([Acquire(m)] + ([Yield] + ([Release(m)] + [Acquire(m)])));
  }

  lemma {:induction false} RunCons(s: Sys, held: set<(Pid, MutexId)>, step: Step, rest: seq<Step>)
    requires Enabled(s, step) && Executable(Next(s, step), rest)
    ensures Executable(s, [step] + rest)
    ensures HeldAfter(s, held, [step] + rest) == HeldAfter(Next(s, step), HeldNext(s, held, step), rest)
    ensures Disciplined(s, [step] + rest) <==>
            (step.Release? ==> s.mutexes[step.m].owner == Some(s.current)) && Disciplined(Next(s, step), rest)
  {
    assert ([step] + rest)[0] == step && ([step] + rest)[1..] == rest;
    hide Next;
  }
}
