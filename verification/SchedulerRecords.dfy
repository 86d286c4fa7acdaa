/**
 What a step does to the records of the processes: what each goes on with, when it is to be woken, and which processes
 there are.
 */
module SchedulerRecords {
  import opened Options
  import opened Scheduling

  /** The process goes on where it would have, is as finished as it was, and its waking time is what it was. */
  ghost predicate Kept(s: Sys, t: Sys, p: Pid) {
    p in s.procs && p in t.procs && t.procs[p].todo == s.procs[p].todo && t.procs[p].finished == s.procs[p].finished &&
    t.procs[p].sleepTick == s.procs[p].sleepTick
  }

  lemma {:induction false} ScheduleKeeps(s: Sys, sleep: bool, p: Pid)
    requires p in s.procs
    ensures Kept(s, Schedule(s, sleep), p)
  {
    var s1 := SetOnCpu(s, s.current, false);
    assert Kept(s, s1, p);
    DispatchKept(s1, p);
    if s.current != IDLE && !sleep {
      DispatchKept(MakeReady(s1, s.current), p);
    }
    hide Dispatch, SetOnCpu;
  }

  lemma {:induction false} DispatchKept(s: Sys, p: Pid)
    requires p in s.procs
    ensures Kept(s, Dispatch(s), p)
  {
  }

  lemma {:induction false} WakeAllKeeps(s: Sys, queue: seq<Pid>, p: Pid)
    requires p in s.procs
    ensures Kept(s, WakeAll(s, queue), p)
    decreases |queue|
  {
    if queue != [] {
      WakeAllKeeps(MakeReady(s, queue[0]), queue[1..], p);
    }
  }

  /** What the process has to go on with after the turn of a mutex loop: the loop, or its own code. */
  lemma {:induction false} TurnTodo(s: Sys, m: MutexId, todo: Todo, p: Pid)
    requires m in s.mutexes && p in s.procs
    ensures var t := TryOrBlock(s, m, todo);
      p in t.procs && t.procs[p].finished == s.procs[p].finished && t.procs[p].sleepTick == s.procs[p].sleepTick &&
      t.procs[p].todo ==
        if p != s.current then s.procs[p].todo else if s.mutexes[m].owner != None then todo else OwnCode
  {
    hide Schedule, Dispatch;
    if s.mutexes[m].owner != None {
      var s1 := SetTodo(s, s.current, todo);
      var s2 := SetMutex(s1, m, s1.mutexes[m].(waiting := s1.mutexes[m].waiting + [s1.current]));
      ScheduleKeeps(SetAsleep(s2, s.current, true), true, p);
    }
  }

  /** What the current process goes on with: the retry loop of the mutex it found taken, its own code once it found one
      free, and else what it was at. */
  function Onwards(s: Sys, step: Step): Todo
    requires Enabled(s, step) && s.current in s.procs
  {
    match step
    case Acquire(m) => if s.mutexes[m].owner != None then Acquiring(m) else OwnCode
    case Wait(m) => if s.mutexes[m].owner != None then WaitingFor(m) else OwnCode
    case Retry => if s.mutexes[s.procs[s.current].todo.m].owner != None then s.procs[s.current].todo else OwnCode
    case _ => s.procs[s.current].todo
  }

  /** When the current process is to be woken: a sleep of some milliseconds ends with the first tick of 10 ms that
      begins after them, and no other step sets it. */
  ghost predicate WakesAt(s: Sys, step: Step, tick: nat)
    requires Enabled(s, step) && s.current in s.procs
  {
    if step.Sleep? then
      tick > s.tick && 10 * (tick - s.tick) > step.milliseconds && 10 * (tick - s.tick - 1) <= step.milliseconds
    else tick == s.procs[s.current].sleepTick
  }

  /** For every process that is there before and after: only the current one's records change, and how. */
  lemma {:induction false} StepRecords(s: Sys, step: Step, p: Pid)
    requires Enabled(s, step) && p in s.procs && p <= s.lastPid && (step.Reap? ==> p != step.p || !s.procs[p].finished)
    ensures p in Next(s, step).procs
    ensures p != s.current ==> Kept(s, Next(s, step), p)
    ensures p == s.current ==> Next(s, step).procs[p].todo == Onwards(s, step)
    ensures p == s.current ==> Next(s, step).procs[p].finished == (s.procs[p].finished || step.Exit?)
    ensures p == s.current ==> WakesAt(s, step, Next(s, step).procs[p].sleepTick)
  {
    hide Schedule, Dispatch, WakeAll, TryOrBlock;
    match step
    case Yield => ScheduleKeeps(s, false, p);
    case UserTick => ScheduleKeeps(WakeSleeper(s.(tick := s.tick + 1)), false, p);
    case KernelTick =>
    case Sleep(ms) =>
      var q := s.procs[s.current].(sleepTick := s.tick + ms / 10 + 1, asleep := true, onCpu := false);
      ScheduleKeeps(s.(procs := s.procs[s.current := q], sleeping := s.sleeping + [s.current]), true, p);
    case Acquire(m) => TurnTodo(s, m, Acquiring(m), p);
    case Wait(m) => TurnTodo(s, m, WaitingFor(m), p);
    case TryAcquire(m) =>
    case Retry => TurnTodo(s, s.procs[s.current].todo.m, s.procs[s.current].todo, p);
    case Release(m) => WakeAllKeeps(SetMutex(s, m, Mutex(None, [])), s.mutexes[m].waiting, p);
    case Fork =>
    case Exit =>
      var q := s.procs[s.current].(asleep := false, onCpu := false, finished := true);
      ScheduleKeeps(s.(procs := s.procs[s.current := q]), true, p);
    case Reap(q) =>
  }

  // ---- Which processes there are ----

  ghost predicate SameProcesses(s: Sys, t: Sys) {
    t.procs.Keys == s.procs.Keys && t.lastPid == s.lastPid
  }

  lemma {:induction false} ScheduleProcesses(s: Sys, sleep: bool)
    ensures SameProcesses(s, Schedule(s, sleep))
  {
  }

  lemma {:induction false} WakeAllProcesses(s: Sys, queue: seq<Pid>)
    ensures SameProcesses(s, WakeAll(s, queue))
    decreases |queue|
  {
    if queue != [] {
      WakeAllProcesses(MakeReady(s, queue[0]), queue[1..]);
    }
  }

  lemma {:induction false} TurnProcesses(s: Sys, m: MutexId, todo: Todo)
    requires m in s.mutexes
    ensures SameProcesses(s, TryOrBlock(s, m, todo))
  {
    hide Schedule;
    if s.mutexes[m].owner != None {
      var s1 := SetTodo(s, s.current, todo);
      var s2 := SetMutex(s1, m, s1.mutexes[m].(waiting := s1.mutexes[m].waiting + [s1.current]));
      ScheduleProcesses(SetAsleep(s2, s.current, true), true);
    }
  }

  /** A fork adds the next number, a process that is reaped after it has finished goes, and else they are the same. */
  lemma {:induction false} StepProcesses(s: Sys, step: Step)
    requires Enabled(s, step)
    ensures Next(s, step).procs.Keys ==
      if step.Fork? then s.procs.Keys + {s.lastPid + 1}
      else if step.Reap? && s.procs[step.p].finished then s.procs.Keys - {step.p}
      else s.procs.Keys
    ensures Next(s, step).lastPid == if step.Fork? then s.lastPid + 1 else s.lastPid
    ensures step.Fork? ==> Next(s, step).procs[s.lastPid + 1].todo == OwnCode
  {
    hide Schedule, WakeAll, TryOrBlock;
    match step
    case Yield => ScheduleProcesses(s, false);
    case UserTick => ScheduleProcesses(WakeSleeper(s.(tick := s.tick + 1)), false);
    case KernelTick =>
    case Sleep(ms) =>
      var q := s.procs[s.current].(sleepTick := s.tick + ms / 10 + 1, asleep := true, onCpu := false);
      ScheduleProcesses(s.(procs := s.procs[s.current := q], sleeping := s.sleeping + [s.current]), true);
    case Acquire(m) => TurnProcesses(s, m, Acquiring(m));
    case Wait(m) => TurnProcesses(s, m, WaitingFor(m));
    case TryAcquire(m) =>
    case Retry => TurnProcesses(s, s.procs[s.current].todo.m, s.procs[s.current].todo);
    case Release(m) => WakeAllProcesses(SetMutex(s, m, Mutex(None, [])), s.mutexes[m].waiting);
    case Fork =>
    case Exit =>
      var q := s.procs[s.current].(asleep := false, onCpu := false, finished := true);
      ScheduleProcesses(s.(procs := s.procs[s.current := q]), true);
    case Reap(p) =>
  }
}
