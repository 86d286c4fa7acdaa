/**
 The scheduler, its wait queues and its mutexes as a transition system.  One step is what the kernel does between
 two context switches: the timer does not preempt kernel code, so nothing interleaves inside a step.
 */
module Scheduling {
  import opened Options

  type Pid = nat
  type MutexId = nat

  const IDLE: Pid := 0
  const INIT: Pid := 1

  /** Where a process goes on when it next gets the CPU: its own code, or a retry loop it blocked in. */
  datatype Todo = OwnCode | Acquiring(m: MutexId) | WaitingFor(m: MutexId)

  datatype Process = Process(asleep: bool, onCpu: bool, finished: bool, sleepTick: nat, todo: Todo)

  datatype Mutex = Mutex(owner: Option<Pid>, waiting: seq<Pid>)

  datatype Sys = Sys(
    procs: map<Pid, Process>,
    current: Pid,
    ready: seq<Pid>,
    sleeping: seq<Pid>,
    mutexes: map<MutexId, Mutex>,
    tick: nat,
    lastPid: nat)

  datatype Step =
    | Yield
    | UserTick
    | KernelTick
    | Sleep(milliseconds: nat)
    | Acquire(m: MutexId)
    | Wait(m: MutexId)
    | TryAcquire(m: MutexId)
    | Retry
    | Release(m: MutexId)
    | Fork
    | Exit
    | Reap(p: Pid)

  // ---- The kernel's functions ----

  function SetAsleep(s: Sys, p: Pid, asleep: bool): Sys {
    if p in s.procs then s.(procs := s.procs[p := s.procs[p].(asleep := asleep)]) else s
  }

  function SetOnCpu(s: Sys, p: Pid, onCpu: bool): Sys {
    if p in s.procs then s.(procs := s.procs[p := s.procs[p].(onCpu := onCpu)]) else s
  }

  function SetTodo(s: Sys, p: Pid, todo: Todo): Sys {
    if p in s.procs then s.(procs := s.procs[p := s.procs[p].(todo := todo)]) else s
  }

  /** schedule_process. */
  function MakeReady(s: Sys, p: Pid): Sys {
    SetAsleep(s, p, false).(ready := s.ready + [p])
  }

  /** get_next_process, and the fall back to the idle thread. */
  function Dispatch(s: Sys): Sys {
    if s.ready == [] then s.(current := IDLE)
    else SetOnCpu(s.(current := s.ready[0], ready := s.ready[1..]), s.ready[0], true)
  }

  /** schedule. */
  function Schedule(s: Sys, sleep: bool): Sys
  {
    var s1 := SetOnCpu(s, s.current, false);
    Dispatch(if s.current != IDLE && !sleep then MakeReady(s1, s.current) else s1)
  }

  function SetMutex(s: Sys, m: MutexId, mutex: Mutex): Sys {
    s.(mutexes := s.mutexes[m := mutex])
  }

  /** wait_for_object. */
  function WaitForObject(s: Sys, m: MutexId): Sys
    requires m in s.mutexes
  {
    var s1 := SetMutex(s, m, s.mutexes[m].(waiting := s.mutexes[m].waiting + [s.current]));
    Schedule(SetAsleep(s1, s.current, true), true)
  }

  /** One turn of mutex_acquire's loop: take the mutex, or queue up and give the CPU away. */
  function TryOrBlock(s: Sys, m: MutexId, todo: Todo): Sys
    requires m in s.mutexes
  {
    if s.mutexes[m].owner != None then WaitForObject(SetTodo(s, s.current, todo), m)
    else
      var s1 := SetTodo(s, s.current, OwnCode);
      if todo == Acquiring(m) then SetMutex(s1, m, s.mutexes[m].(owner := Some(s.current))) else s1
  }

  /** wakeup_waiting. */
  function WakeAll(s: Sys, queue: seq<Pid>): Sys
    decreases |queue|
  {
    if queue == [] then s else WakeAll(MakeReady(s, queue[0]), queue[1..])
  }

  function ReleaseMutex(s: Sys, m: MutexId): Sys
    requires m in s.mutexes
  {
    WakeAll(SetMutex(s, m, Mutex(None, [])), s.mutexes[m].waiting)
  }

  predicate Due(s: Sys, p: Pid) {
    p in s.procs && s.procs[p].sleepTick <= s.tick
  }

  /** Index of the first due sleeper from `i` on, or the length of the queue. */
  function FirstDue(s: Sys, i: nat): (r: nat)
    requires i <= |s.sleeping|
    ensures i <= r <= |s.sleeping|
    ensures forall j | i <= j < r :: !Due(s, s.sleeping[j])
    ensures r < |s.sleeping| ==> Due(s, s.sleeping[r])
    decreases |s.sleeping| - i
  {
    if i == |s.sleeping| || Due(s, s.sleeping[i]) then i else FirstDue(s, i + 1)
  }

  /** wakeup_sleeping: deleting an entry clears its next pointer, so the walk ends with the first one woken. */
  function WakeSleeper(s: Sys): Sys {
    var i := FirstDue(s, 0);
    if i == |s.sleeping| then s
    else MakeReady(s.(sleeping := s.sleeping[..i] + s.sleeping[i + 1..]), s.sleeping[i])
  }

  /** sleep. */
  function GoToSleep(s: Sys, milliseconds: nat): Sys {
    if s.current !in s.procs then s
    else
      var p := s.procs[s.current].(sleepTick := s.tick + milliseconds / 10 + 1, asleep := true, onCpu := false);
      Schedule(s.(procs := s.procs[s.current := p], sleeping := s.sleeping + [s.current]), true)
  }

  /** The queue effect of process_fork. */
  function ForkChild(s: Sys): Sys {
    if s.current !in s.procs then s
    else
      var child := s.lastPid + 1;
      s.(procs := s.procs[child := s.procs[s.current].(onCpu := false)], ready := s.ready + [child], lastPid := child)
  }

  /** process_exit: every flag goes but the finished one. */
  function ExitCurrent(s: Sys): Sys {
    if s.current !in s.procs then s
    else
      var process := s.procs[s.current].(asleep := false, onCpu := false, finished := true);
      Schedule(s.(procs := s.procs[s.current := process]), true)
  }

  // ---- Steps and runs ----

  /** The current process runs its own code, in user mode or in a system call. */
  predicate InOwnCode(s: Sys) {
    s.current != IDLE && s.current in s.procs && s.procs[s.current].todo == OwnCode
  }

  predicate Enabled(s: Sys, step: Step) {
    match step
    case Yield => s.current == IDLE || InOwnCode(s)
    case KernelTick => true
    case Retry => s.current != IDLE && s.current in s.procs && s.procs[s.current].todo != OwnCode &&
      s.procs[s.current].todo.m in s.mutexes
    case Acquire(m) => InOwnCode(s) && m in s.mutexes
    case Wait(m) => InOwnCode(s) && m in s.mutexes
    case TryAcquire(m) => InOwnCode(s) && m in s.mutexes
    case Release(m) => InOwnCode(s) && m in s.mutexes
    case Exit => InOwnCode(s) && s.current != INIT
    case Reap(p) => InOwnCode(s) && p in s.procs
    case _ => InOwnCode(s)
  }

  function Next(s: Sys, step: Step): Sys
    requires Enabled(s, step)
  {
    match step
    case Yield => Schedule(s, false)
    case UserTick => Schedule(WakeSleeper(s.(tick := s.tick + 1)), false)
    case KernelTick => s.(tick := s.tick + 1)
    case Sleep(milliseconds) => GoToSleep(s, milliseconds)
    case Acquire(m) => TryOrBlock(s, m, Acquiring(m))
    case Wait(m) => TryOrBlock(s, m, WaitingFor(m))
    case TryAcquire(m) =>
      if s.mutexes[m].owner != None then s else SetMutex(s, m, s.mutexes[m].(owner := Some(s.current)))
    case Retry => TryOrBlock(s, s.procs[s.current].todo.m, s.procs[s.current].todo)
    case Release(m) => ReleaseMutex(s, m)
    case Fork => ForkChild(s)
    case Exit => ExitCurrent(s)
    case Reap(p) => if s.procs[p].finished then s.(procs := s.procs - {p}) else s
  }

  predicate Executable(s: Sys, steps: seq<Step>)
    decreases |steps|
  {
    steps == [] || (Enabled(s, steps[0]) && Executable(Next(s, steps[0]), steps[1..]))
  }

  function After(s: Sys, steps: seq<Step>): Sys
    requires Executable(s, steps)
    decreases |steps|
  {
    if steps == [] then s else After(Next(s, steps[0]), steps[1..])
  }

  /** Does the step call schedule? */
  predicate Switches(s: Sys, step: Step)
    requires Enabled(s, step)
  {
    match step
    case Yield => true
    case UserTick => true
    case Sleep(_) => true
    case Exit => true
    case Acquire(m) => s.mutexes[m].owner != None
    case Wait(m) => s.mutexes[m].owner != None
    case Retry => s.mutexes[s.procs[s.current].todo.m].owner != None
    case _ => false
  }

  function Switched(s: Sys, steps: seq<Step>): nat
    requires Executable(s, steps)
    decreases |steps|
  {
    if steps == [] then 0
    else (if Switches(s, steps[0]) then 1 else 0) + Switched(Next(s, steps[0]), steps[1..])
  }
}
