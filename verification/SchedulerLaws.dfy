/**
 What a mutex and a sleep promise the process that asks: a turn that finds the mutex free ends its wait, nobody waits
 for itself unless it asks for what it owns, and a sleep lasts as long as was asked.
 */
module SchedulerLaws {
  import opened Options
  import opened Scheduling
  import opened SchedulerInvariant
  import opened SchedulerRecords
  import opened SchedulerTheorems

  // ---- The process that runs ----

  ghost predicate RunnerFlagged(s: Sys) {
    s.current != IDLE && s.current in s.procs ==> s.procs[s.current].onCpu
  }

  lemma {:induction false} ScheduleFlags(s: Sys, sleep: bool)
    ensures RunnerFlagged(Schedule(s, sleep))
  {
    var s1 := SetOnCpu(s, s.current, false);
    DispatchFlags(s1);
    DispatchFlags(MakeReady(s1, s.current));
    hide Dispatch, SetOnCpu, RunnerFlagged;
  }

  lemma {:induction false} DispatchFlags(s: Sys)
    ensures RunnerFlagged(Dispatch(s))
  {
  }

  /** After a switch the process that runs, and no other, is flagged as being on the CPU. */
  lemma {:induction false} OneOnCpu(s: Sys, at: map<Pid, Place>, step: Step)
    requires Inv(s, at) && Enabled(s, step) && Switches(s, step)
    ensures forall p <- Next(s, step).procs :: Next(s, step).procs[p].onCpu <==> p == Next(s, step).current
  {
    FlagStep(s, step);
    var at' := NextKeeps(s, at, step);
    hide Next, FlagsFit, Queues, WaitersOwned;
  }

  lemma {:induction false} FlagStep(s: Sys, step: Step)
    requires Enabled(s, step) && Switches(s, step)
    ensures RunnerFlagged(Next(s, step))
  {
    hide Schedule, Dispatch, WakeSleeper, RunnerFlagged;
    match step
    case Yield => ScheduleFlags(s, false);
    case UserTick => ScheduleFlags(WakeSleeper(s.(tick := s.tick + 1)), false);
    case Sleep(ms) =>
      var q := s.procs[s.current].(sleepTick := s.tick + ms / 10 + 1, asleep := true, onCpu := false);
      ScheduleFlags(s.(procs := s.procs[s.current := q], sleeping := s.sleeping + [s.current]), true);
    case Acquire(m) => BlockFlags(s, m, Acquiring(m));
    case Wait(m) => BlockFlags(s, m, WaitingFor(m));
    case Retry => BlockFlags(s, s.procs[s.current].todo.m, s.procs[s.current].todo);
    case Exit =>
      var q := s.procs[s.current].(asleep := false, onCpu := false, finished := true);
      ScheduleFlags(s.(procs := s.procs[s.current := q]), true);
  }

  lemma {:induction false} BlockFlags(s: Sys, m: MutexId, todo: Todo)
    requires m in s.mutexes && s.mutexes[m].owner != None
    ensures RunnerFlagged(TryOrBlock(s, m, todo))
  {
    hide Schedule, RunnerFlagged;
    var s1 := SetTodo(s, s.current, todo);
    var s2 := SetMutex(s1, m, s1.mutexes[m].(waiting := s1.mutexes[m].waiting + [s1.current]));
    ScheduleFlags(SetAsleep(s2, s.current, true), true);
  }

  // ---- Turns at a mutex ----

  /** The mutex whose loop the step enters or goes through again. */
  function Asks(s: Sys, step: Step): Option<MutexId>
    requires Enabled(s, step)
  {
    match step
    case Acquire(m) => Some(m)
    case Wait(m) => Some(m)
    case Retry => Some(s.procs[s.current].todo.m)
    case _ => None
  }

  lemma {:induction false} Listed(s: Sys, at: map<Pid, Place>, p: Pid)
    requires Inv(s, at) && p in s.procs
    ensures p <= s.lastPid
  {
  }

  /** A turn that finds the mutex free ends the loop: the same process goes on in its own code, as the owner if it came
      to acquire. */
  lemma {:induction false} FreeTurn(s: Sys, at: map<Pid, Place>, step: Step, m: MutexId)
    requires Inv(s, at) && Enabled(s, step) && Asks(s, step) == Some(m) && s.mutexes[m].owner == None
    ensures InOwnCode(Next(s, step)) && Next(s, step).current == s.current && Next(s, step).ready == s.ready
    ensures m in Next(s, step).mutexes && Next(s, step).mutexes[m].owner ==
      if step.Wait? || (step.Retry? && s.procs[s.current].todo.WaitingFor?) then None else Some(s.current)
  {
    Listed(s, at, s.current);
    StepRecords(s, step, s.current);
    OwnerShape(s, step, m);
    var added := ReadyShape(s, step);
    FreeReady(s, step, m);
    hide Next, Inv;
  }

  lemma {:induction false} FreeReady(s: Sys, step: Step, m: MutexId)
    requires Enabled(s, step) && Asks(s, step) == Some(m) && s.mutexes[m].owner == None
    ensures Next(s, step).ready == s.ready
  {
  }

  /** A turn that finds it taken queues the process up behind the others at that mutex, to ask again. */
  lemma {:induction false} TakenTurn(s: Sys, at: map<Pid, Place>, step: Step, m: MutexId)
    requires Inv(s, at) && Enabled(s, step) && Asks(s, step) == Some(m) && s.mutexes[m].owner != None
    ensures var t := Next(s, step);
      m in t.mutexes && t.mutexes[m] == Mutex(s.mutexes[m].owner, s.mutexes[m].waiting + [s.current]) &&
      s.current in t.procs && t.procs[s.current].todo ==
        if step.Wait? || (step.Retry? && s.procs[s.current].todo.WaitingFor?) then WaitingFor(m) else Acquiring(m)
  {
    hide TryOrBlock;
    Listed(s, at, s.current);
    StepRecords(s, step, s.current);
    match step
    case Acquire(_) => TryShape(s, m, Acquiring(m));
    case Wait(_) => TryShape(s, m, WaitingFor(m));
    case Retry => TryShape(s, m, s.procs[s.current].todo);
  }

  /** Waiters keep their places: a queue at a mutex only grows at its end until the mutex is released. */
  lemma {:induction false} WaitersQueue(s: Sys, step: Step, m: MutexId)
    requires Enabled(s, step) && m in s.mutexes && step != Release(m)
    ensures m in Next(s, step).mutexes && s.mutexes[m].waiting <= Next(s, step).mutexes[m].waiting
  {
    hide Schedule, Dispatch, WakeAll, TryOrBlock, GoToSleep, ExitCurrent, ReleaseMutex, WakeSleeper;
    match step
    case Yield => ScheduleShape(s, false);
    case UserTick => TickShape(s.(tick := s.tick + 1));
    case KernelTick =>
    case Sleep(ms) => SleepShape(s, ms);
    case Acquire(n) => TryShape(s, n, Acquiring(n));
    case Wait(n) => TryShape(s, n, WaitingFor(n));
    case TryAcquire(n) =>
    case Retry => TryShape(s, s.procs[s.current].todo.m, s.procs[s.current].todo);
    case Release(n) => ReleaseShape(s, n);
    case Fork =>
    case Exit => ExitShape(s);
    case Reap(p) =>
  }

  // ---- Waiting for oneself ----

  /** No process is in the loop of a mutex that it owns. */
  ghost predicate NoneAsksItself(s: Sys) {
    forall p <- s.procs | s.procs[p].todo != OwnCode ::
      s.procs[p].todo.m in s.mutexes ==> s.mutexes[s.procs[p].todo.m].owner != Some(p)
  }

  /** The step asks for a mutex that the current process owns. */
  predicate AsksItself(s: Sys, step: Step)
    requires Enabled(s, step)
  {
    (step.Acquire? || step.Wait?) && s.mutexes[step.m].owner == Some(s.current)
  }

  /** Nobody comes to ask itself, exactly while nobody asks for what it owns. */
  lemma {:induction false} AskStep(s: Sys, at: map<Pid, Place>, step: Step)
    requires Inv(s, at) && Enabled(s, step) && NoneAsksItself(s)
    ensures NoneAsksItself(Next(s, step)) <==> !AsksItself(s, step)
  {
    StepProcesses(s, step);
    var t := Next(s, step);
    if AsksItself(s, step) {
      TakenTurn(s, at, step, step.m);
    } else {
      forall p <- t.procs | t.procs[p].todo != OwnCode && t.procs[p].todo.m in t.mutexes
        ensures t.mutexes[t.procs[p].todo.m].owner != Some(p)
      {
        AskKept(s, at, step, p);
      }
    }
    hide Next, Inv;
  }

  lemma {:induction false} AskKept(s: Sys, at: map<Pid, Place>, step: Step, p: Pid)
    requires Inv(s, at) && Enabled(s, step) && NoneAsksItself(s) && !AsksItself(s, step)
    requires p in Next(s, step).procs && Next(s, step).procs[p].todo != OwnCode
    ensures var m := Next(s, step).procs[p].todo.m;
      m in s.mutexes && m in Next(s, step).mutexes && Next(s, step).mutexes[m].owner != Some(p)
  {
    StepProcesses(s, step);
    assert p in s.procs;
    Listed(s, at, p);
    StepRecords(s, step, p);
    var m := Next(s, step).procs[p].todo.m;
    assert m in s.mutexes;
    OwnerShape(s, step, m);
    hide Next, Inv;
  }

  /** Nobody in the run asks for a mutex it owns. */
  predicate Careful(s: Sys, steps: seq<Step>)
    requires Executable(s, steps)
    decreases |steps|
  {
    steps == [] || (!AsksItself(s, steps[0]) && Careful(Next(s, steps[0]), steps[1..]))
  }

  lemma {:induction false} AskRun(s: Sys, at: map<Pid, Place>, steps: seq<Step>)
    requires Inv(s, at) && NoneAsksItself(s) && Executable(s, steps) && Careful(s, steps)
    ensures NoneAsksItself(After(s, steps))
    decreases |steps|
  {
    hide Next, Inv, NoneAsksItself;
    if steps != [] {
      AskStep(s, at, steps[0]);
      var at' := NextKeeps(s, at, steps[0]);
      AskRun(Next(s, steps[0]), at', steps[1..]);
    }
  }

  /** Over every run from boot in which nobody asks for a mutex it owns, no process waits for one that it owns. */
  lemma {:induction false} NoneWaitsForItself(s: Sys, steps: seq<Step>, m: MutexId, p: Pid)
    requires Boot(s) && Executable(s, steps) && Careful(s, steps)
    requires m in After(s, steps).mutexes && p in After(s, steps).mutexes[m].waiting
    ensures After(s, steps).mutexes[m].owner != Some(p)
  {
    var at := FromBoot(s, []);
    AskRun(s, at, steps);
    var after := FromBoot(s, steps);
    assert Holds(After(s, steps).mutexes[m].waiting, after, Queued(m));
    assert FlagsFit(After(s, steps), after, p);
  }

  // ---- From a release to the owner's own code ----

  lemma {:induction false} ReadyListed(s: Sys, at: map<Pid, Place>, k: nat)
    requires Inv(s, at) && k < |s.ready|
    ensures var p := s.ready[k]; p in s.procs && p != IDLE && p != s.current && p <= s.lastPid && !s.procs[p].finished
  {
    HoldsMember(s.ready, at, Ready, k);
  }

  /** A ready process goes on with the same, and sleeps no longer, until it gets the CPU. */
  lemma {:induction false} ReadyKept(s: Sys, at: map<Pid, Place>, steps: seq<Step>, k: nat)
    requires Inv(s, at) && Executable(s, steps) && k < |s.ready| && Switched(s, steps) <= k
    ensures Kept(s, After(s, steps), s.ready[k])
    decreases |steps|
  {
    hide Next, Inv, Enabled;
    var p := s.ready[k];
    ReadyListed(s, at, k);
    if steps != [] {
      StepRecords(s, steps[0], p);
      var added := ReadyShape(s, steps[0]);
      var at' := NextKeeps(s, at, steps[0]);
      ReadyKept(Next(s, steps[0]), at', steps[1..], if Switches(s, steps[0]) then k - 1 else k);
    }
  }

  /** Process `p` has its turn at the mutex: if it is free, `p` goes on in its own code, as the owner if it came to
      acquire. */
  ghost predicate HasTurn(t: Sys, p: Pid, todo: Todo)
    requires todo != OwnCode
  {
    t.current == p && Enabled(t, Retry) && Asks(t, Retry) == Some(todo.m) &&
    (t.mutexes[todo.m].owner == None ==> GoesOn(Next(t, Retry), p, todo))
  }

  ghost predicate GoesOn(t: Sys, p: Pid, todo: Todo) {
    t.current == p && InOwnCode(t) &&
    (todo.Acquiring? ==> todo.m in t.mutexes && t.mutexes[todo.m].owner == Some(p))
  }

  /** The head of the ready queue is in the loop of a mutex; with the next switch it has its turn there. */
  lemma {:induction false} TurnOf(u: Sys, at: map<Pid, Place>, last: Step)
    requires Inv(u, at) && Enabled(u, last) && Switches(u, last)
    requires u.ready != [] && u.ready[0] in u.procs && u.procs[u.ready[0]].todo != OwnCode
    ensures HasTurn(Next(u, last), u.ready[0], u.procs[u.ready[0]].todo)
  {
    hide Next, Inv, HasTurn;
    var p, t := u.ready[0], Next(u, last);
    ReadyListed(u, at, 0);
    StepRecords(u, last, p);
    var added := ReadyShape(u, last);
    var at' := NextKeeps(u, at, last);
    Loops(t, at', p);
    RetryTurn(t, at');
  }

  lemma {:induction false} Loops(s: Sys, at: map<Pid, Place>, p: Pid)
    requires Inv(s, at) && p in s.procs && s.procs[p].todo != OwnCode
    ensures s.procs[p].todo.m in s.mutexes
  {
  }

  lemma {:induction false} RetryTurn(t: Sys, at: map<Pid, Place>)
    requires Inv(t, at) && Enabled(t, Retry)
    ensures HasTurn(t, t.current, t.procs[t.current].todo)
  {
    var m := t.procs[t.current].todo.m;
    hide Next, Inv;
    if t.mutexes[m].owner == None {
      FreeTurn(t, at, Retry, m);
    }
  }

  /** What a release does to a waiter: it is ready behind those that were, and it goes on in the loop of the mutex. */
  lemma {:induction false} Released(s: Sys, at: map<Pid, Place>, m: MutexId, i: nat)
    requires Inv(s, at) && Enabled(s, Release(m)) && i < |s.mutexes[m].waiting|
    ensures var p, r := s.mutexes[m].waiting[i], Next(s, Release(m));
      |s.ready| + i < |r.ready| && r.ready[|s.ready| + i] == p && Kept(s, r, p) && s.procs[p].todo != OwnCode &&
      s.procs[p].todo.m == m
  {
    var p := s.mutexes[m].waiting[i];
    assert Holds(s.mutexes[m].waiting, at, Queued(m));
    HoldsMember(s.mutexes[m].waiting, at, Queued(m), i);
    assert FlagsFit(s, at, p) && p != s.current && p <= s.lastPid;
    hide Inv, WakeAll;
    ReleaseShape(s, m);
    StepRecords(s, Release(m), p);
  }

  /** A waiter that is released has its turn at the mutex as soon as those that were ready before it have had the CPU;
      if the mutex is free then, it goes on in its own code, as the owner if it came to acquire. */
  lemma {:induction false} ReleasedHasTurn(s: Sys, at: map<Pid, Place>, m: MutexId, i: nat, steps: seq<Step>,
                                            last: Step)
    requires Inv(s, at) && Enabled(s, Release(m)) && i < |s.mutexes[m].waiting|
    requires Executable(Next(s, Release(m)), steps) && Switched(Next(s, Release(m)), steps) == |s.ready| + i
    requires Enabled(After(Next(s, Release(m)), steps), last) && Switches(After(Next(s, Release(m)), steps), last)
    ensures var p := s.mutexes[m].waiting[i];
      p in s.procs && s.procs[p].todo != OwnCode && s.procs[p].todo.m == m &&
      HasTurn(Next(After(Next(s, Release(m)), steps), last), p, s.procs[p].todo)
  {
    hide Next, Inv, HasTurn, Switched, Executable, After;
    var r, k := Next(s, Release(m)), |s.ready| + i;
    Released(s, at, m, i);
    var at1 := NextKeeps(s, at, Release(m));
    ReadyKept(r, at1, steps, k);
    QueueAdvance(r, steps, k);
    var at2 := RunKeeps(r, at1, steps);
    TurnOf(After(r, steps), at2, last);
  }

  // ---- How long a sleep lasts ----

  function Ticks(steps: seq<Step>): nat {
    if steps == [] then 0 else (if steps[0].UserTick? || steps[0].KernelTick? then 1 else 0) + Ticks(steps[1..])
  }

  /** A sleeper is woken by a tick in user mode at its waking time or later, if no sleeper before it has come as far. */
  lemma {:induction false} WokenExactly(s: Sys, at: map<Pid, Place>, step: Step, k: nat)
    requires Inv(s, at) && Enabled(s, step) && k < |s.sleeping|
    ensures forall p <- s.sleeping :: p in s.procs
    ensures s.sleeping[k] !in Next(s, step).sleeping <==>
      step == UserTick && s.procs[s.sleeping[k]].sleepTick <= s.tick + 1 &&
      forall j | 0 <= j < k :: s.procs[s.sleeping[j]].sleepTick > s.tick + 1
  {
    LeavesExactly(s, at, step, k);
    forall j | 0 <= j < |s.sleeping|
      ensures s.sleeping[j] in s.procs
    {
      SleeperListed(s, at, j);
    }
    hide Next, Inv;
  }

  /** Over every run that does not come to its waking time, a sleeper stays one. */
  lemma {:induction false} SleepsOn(s: Sys, at: map<Pid, Place>, steps: seq<Step>, k: nat)
    requires Inv(s, at) && Executable(s, steps) && k < |s.sleeping| && s.sleeping[k] in s.procs
    requires s.tick + Ticks(steps) < s.procs[s.sleeping[k]].sleepTick
    ensures s.sleeping[k] in After(s, steps).sleeping
    decreases |steps|
  {
    hide Next, Inv;
    if steps != [] {
      var p, t := s.sleeping[k], Next(s, steps[0]);
      WokenExactly(s, at, steps[0], k);
      SleeperListed(s, at, k);
      SleepingShape(s, steps[0]);
      StepRecords(s, steps[0], p);
      var at' := NextKeeps(s, at, steps[0]);
      var j :| 0 <= j < |t.sleeping| && t.sleeping[j] == p;
      SleepsOn(t, at', steps[1..], j);
    }
  }

  /** A sleep lasts: over every run after it whose ticks of 10 ms do not come to more than the milliseconds asked for,
      the process still sleeps. */
  lemma {:induction false} SleepLasts(s: Sys, at: map<Pid, Place>, milliseconds: nat, steps: seq<Step>)
    requires Inv(s, at) && Enabled(s, Sleep(milliseconds)) && Executable(Next(s, Sleep(milliseconds)), steps)
    requires 10 * Ticks(steps) <= milliseconds
    ensures s.current in After(Next(s, Sleep(milliseconds)), steps).sleeping
  {
    var t := Next(s, Sleep(milliseconds));
    SleepSets(s, at, milliseconds);
    var at' := NextKeeps(s, at, Sleep(milliseconds));
    hide Next, Inv;
    SleepsOn(t, at', steps, |s.sleeping|);
  }

  /** Where the sleeper lies down, and until when: the first tick that begins later than the milliseconds asked for. */
  lemma {:induction false} SleepSets(s: Sys, at: map<Pid, Place>, milliseconds: nat)
    requires Inv(s, at) && Enabled(s, Sleep(milliseconds))
    ensures var t := Next(s, Sleep(milliseconds));
      t.tick == s.tick && t.sleeping == s.sleeping + [s.current] && s.current in t.procs &&
      t.procs[s.current].sleepTick > s.tick && 10 * (t.procs[s.current].sleepTick - s.tick) > milliseconds &&
      10 * (t.procs[s.current].sleepTick - s.tick - 1) <= milliseconds
  {
    Listed(s, at, s.current);
    StepRecords(s, Sleep(milliseconds), s.current);
    SleepShape(s, milliseconds);
  }

  /** A sleeper that is not woken keeps its waking time and falls back behind nobody. */
  lemma {:induction false} SleeperMoves(s: Sys, at: map<Pid, Place>, step: Step, k: nat) returns (j: nat)
    requires Inv(s, at) && Enabled(s, step) && k < |s.sleeping| && s.sleeping[k] in s.procs
    requires s.sleeping[k] in Next(s, step).sleeping
    ensures j <= k && j < |Next(s, step).sleeping| && Next(s, step).sleeping[j] == s.sleeping[k]
    ensures Kept(s, Next(s, step), s.sleeping[k])
  {
    hide Next, Inv, AfterWake;
    j := k;
    SleepingShape(s, step);
    SleeperListed(s, at, k);
    StepRecords(s, step, s.sleeping[k]);
    if step == UserTick {
      j := AfterWakeMoves(s.(tick := s.tick + 1), k);
    }
  }

  lemma {:induction false} AfterWakeMoves(s: Sys, k: nat) returns (j: nat)
    requires NoDup(s.sleeping) && k < |s.sleeping| && s.sleeping[k] in AfterWake(s)
    ensures j <= k && j < |AfterWake(s)| && AfterWake(s)[j] == s.sleeping[k]
  {
    hide FirstDue;
    j := k;
    var i := FirstDue(s, 0);
    if i < |s.sleeping| {
      CutGone(s.sleeping, i);
      if i < k {
        j := k - 1;
      }
      CutKeeps(s.sleeping, i, k);
    }
  }

  /** A sleeper is woken at the latest by the user-mode tick that has as many before it, counted from its waking time,
      as there are sleepers before it. */
  lemma {:induction false} WakesBy(s: Sys, at: map<Pid, Place>, steps: seq<Step>, i: nat, k: nat) returns (n: nat)
    requires Inv(s, at) && Executable(s, steps) && i <= |steps| && k < |s.sleeping| && s.sleeping[k] in s.procs
    requires s.tick + Ticks(steps[..i]) >= s.procs[s.sleeping[k]].sleepTick && UserTicks(steps[i..]) > k
    ensures n <= |steps| && Executable(s, steps[..n]) && s.sleeping[k] !in After(s, steps[..n]).sleeping
    decreases i
  {
    hide Inv, Next, Enabled;
    if i == 0 {
      assert steps[0..] == steps;
      n := SleeperWoken(s, at, steps, k);
      return;
    }
    var p, t := s.sleeping[k], Next(s, steps[0]);
    assert steps[..1] == [steps[0]] && steps[..1][1..] == [];
    if p !in t.sleeping {
      return 1;
    }
    assert steps[..i][1..] == steps[1..][..i - 1] && steps[1..][i - 1..] == steps[i..];
    SleepingShape(s, steps[0]);
    var j := SleeperMoves(s, at, steps[0], k);
    var at' := NextKeeps(s, at, steps[0]);
    n := WakesBy(t, at', steps[1..], i - 1, j);
    assert steps[1..][..n] == steps[..n + 1][1..];
    n := n + 1;
  }

  /** And it ends: once more ticks have come than the milliseconds asked for, one further tick in user mode for the
      sleeper and each one that lay down before it is enough. */
  lemma {:induction false} SleepEnds(s: Sys, at: map<Pid, Place>, milliseconds: nat, steps: seq<Step>, i: nat)
    returns (n: nat)
    requires Inv(s, at) && Enabled(s, Sleep(milliseconds)) && Executable(Next(s, Sleep(milliseconds)), steps)
    requires i <= |steps| && 10 * Ticks(steps[..i]) > milliseconds && UserTicks(steps[i..]) > |s.sleeping|
    ensures n <= |steps| && Executable(Next(s, Sleep(milliseconds)), steps[..n])
    ensures s.current !in After(Next(s, Sleep(milliseconds)), steps[..n]).sleeping
  {
    SleepSets(s, at, milliseconds);
    var at' := NextKeeps(s, at, Sleep(milliseconds));
    hide Next, Inv;
    n := WakesBy(Next(s, Sleep(milliseconds)), at', steps, i, |s.sleeping|);
  }
}
