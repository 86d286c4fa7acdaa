/**
 The scheduler's global state and the functions that update it in place, each proved to do what the transition
 system says.  A context switch is the change of `current`; what the C code does after a switch belongs to the next
 step of whoever runs then.
 */
module SchedulerState {
  import opened Options
  import opened Scheduling

  class Scheduler {
    var procs: map<Pid, Process>
    var current: Pid
    var ready: seq<Pid>
    var sleeping: seq<Pid>
    var mutexes: map<MutexId, Mutex>
    var tick: nat
    var lastPid: nat

    function View(): Sys
      reads this
    {
      Sys(procs, current, ready, sleeping, mutexes, tick, lastPid)
    }

    constructor (locks: set<MutexId>)
      ensures current == INIT && ready == [] && sleeping == [] && lastPid == INIT
      ensures procs == map[INIT := Process(false, false, false, 0, OwnCode)]
      ensures mutexes.Keys == locks && forall m <- locks :: mutexes[m] == Mutex(None, [])
    {
      current, ready, sleeping, tick, lastPid := INIT, [], [], 0, INIT;
      procs := map[INIT := Process(false, false, false, 0, OwnCode)];
      mutexes := map m | m in locks :: Mutex(None, []);
    }

    method ScheduleProcess(p: Pid)
      modifies this`procs, this`ready
      ensures View() == MakeReady(old(View()), p)
    {
      if p in procs {
        procs := procs[p := procs[p].(asleep := false)];
      }
      ready := ready + [p];
    }

    method GetNextProcess() returns (next: Option<Pid>)
      modifies this`ready
      ensures next == if old(ready) == [] then None else Some(old(ready)[0])
      ensures ready == if old(ready) == [] then [] else old(ready)[1..]
    {
      if |ready| == 0 {
        return None;
      }
      next := Some(ready[0]);
      ready := ready[1..];
    }

    method Schedule(sleep: bool)
      modifies this`procs, this`ready, this`current
      ensures View() == Scheduling.Schedule(old(View()), sleep)
    {
      if current in procs {
        procs := procs[current := procs[current].(onCpu := false)];
      }
      if current != IDLE && !sleep {
        ScheduleProcess(current);
      }
      var next := GetNextProcess();
      if next.None? {
        current := IDLE;
        return;
      }
      current := next.value;
      if current in procs {
        procs := procs[current := procs[current].(onCpu := true)];
      }
    }

    method WaitForObject(m: MutexId)
      requires m in mutexes
      modifies this`procs, this`ready, this`current, this`mutexes
      ensures View() == Scheduling.WaitForObject(old(View()), m)
    {
      mutexes := mutexes[m := mutexes[m].(waiting := mutexes[m].waiting + [current])];
      if current in procs {
        procs := procs[current := procs[current].(asleep := true)];
      }
      Schedule(true);
    }

    /** wakeup_waiting: the loop takes one waiter at a time from the head. */
    method WakeupWaiting(m: MutexId)
      requires m in mutexes
      modifies this`procs, this`ready, this`mutexes
      ensures View() == WakeAll(SetMutex(old(View()), m, old(mutexes[m]).(waiting := [])), old(mutexes[m].waiting))
    {
      ghost var done := SetMutex(View(), m, mutexes[m].(waiting := []));
      while |mutexes[m].waiting| > 0
        invariant m in mutexes && mutexes[m].owner == old(mutexes[m].owner)
        invariant WakeAll(SetMutex(View(), m, mutexes[m].(waiting := [])), mutexes[m].waiting) ==
                  WakeAll(done, old(mutexes[m].waiting))
        decreases |mutexes[m].waiting|
      {
        ghost var before := View();
        var p := mutexes[m].waiting[0];
        ScheduleProcess(p);
        mutexes := mutexes[m := mutexes[m].(waiting := mutexes[m].waiting[1..])];
        assert SetMutex(View(), m, mutexes[m].(waiting := [])) ==
               MakeReady(SetMutex(before, m, before.mutexes[m].(waiting := [])), p);
      }
      assert SetMutex(View(), m, mutexes[m].(waiting := [])) == View();
    }

    /** One turn of the loop in mutex_acquire, from entry or from the return of wait_for_object. */
    method MutexAcquire(m: MutexId)
      requires m in mutexes && current in procs
      modifies this`procs, this`ready, this`current, this`mutexes
      ensures View() == TryOrBlock(old(View()), m, Acquiring(m))
    {
      if mutexes[m].owner != None {
        procs := procs[current := procs[current].(todo := Acquiring(m))];
        WaitForObject(m);
        return;
      }
      procs := procs[current := procs[current].(todo := OwnCode)];
      mutexes := mutexes[m := mutexes[m].(owner := Some(current))];
    }

    /** One turn of the loop in mutex_wait. */
    method MutexWait(m: MutexId)
      requires m in mutexes && current in procs
      modifies this`procs, this`ready, this`current, this`mutexes
      ensures View() == TryOrBlock(old(View()), m, WaitingFor(m))
    {
      if mutexes[m].owner != None {
        procs := procs[current := procs[current].(todo := WaitingFor(m))];
        WaitForObject(m);
        return;
      }
      procs := procs[current := procs[current].(todo := OwnCode)];
    }

    method MutexAcquireIfFree(m: MutexId) returns (taken: bool)
      requires m in mutexes
      modifies this`mutexes
      ensures taken == (old(mutexes[m].owner) == None)
      ensures mutexes == if taken then old(mutexes)[m := old(mutexes[m]).(owner := Some(current))] else old(mutexes)
    {
      if mutexes[m].owner != None {
        return false;
      }
      mutexes := mutexes[m := mutexes[m].(owner := Some(current))];
      taken := true;
    }

    method MutexRelease(m: MutexId)
      requires m in mutexes
      modifies this`procs, this`ready, this`mutexes
      ensures View() == ReleaseMutex(old(View()), m)
    {
      mutexes := mutexes[m := mutexes[m].(owner := None)];
      assert mutexes[m := Mutex(None, [])] == old(mutexes)[m := Mutex(None, [])];
      WakeupWaiting(m);
    }

    method SleepFor(milliseconds: nat)
      requires current in procs
      modifies this`procs, this`ready, this`current, this`sleeping
      ensures View() == GoToSleep(old(View()), milliseconds)
    {
      hide Scheduling.Schedule;
      var until := tick + milliseconds / 10 + 1;
      procs := procs[current := procs[current].(sleepTick := until)];
      procs := procs[current := procs[current].(asleep := true)];
      procs := procs[current := procs[current].(onCpu := false)];
      assert procs == old(procs)[current := old(procs[current]).(sleepTick := until, asleep := true, onCpu := false)];
      sleeping := sleeping + [current];
      Schedule(true);
    }

    /** wakeup_sleeping: the walk stops at the entry it deletes, whose next pointer list_delete has cleared. */
    method WakeupSleeping()
      modifies this`procs, this`ready, this`sleeping
      ensures View() == WakeSleeper(old(View()))
    {
      var i := 0;
      while i < |sleeping|
        invariant 0 <= i <= |sleeping|
        invariant View() == old(View())
        invariant FirstDue(View(), 0) == FirstDue(View(), i)
      {
        var p := sleeping[i];
        if p in procs && procs[p].sleepTick <= tick {
          sleeping := sleeping[..i] + sleeping[i + 1..];
          ScheduleProcess(p);
          return;
        }
        i := i + 1;
      }
    }

    method ProcessFork() returns (child: Pid)
      requires current in procs
      modifies this`procs, this`ready, this`lastPid
      ensures View() == ForkChild(old(View())) && child == lastPid
    {
      lastPid := lastPid + 1;
      child := lastPid;
      procs := procs[child := procs[current].(onCpu := false)];
      ready := ready + [child];
    }

    method ProcessExit()
      requires current in procs
      modifies this`procs, this`ready, this`current
      ensures View() == ExitCurrent(old(View()))
    {
      procs := procs[current := procs[current].(asleep := false, onCpu := false, finished := true)];
      Schedule(true);
    }

    method ProcessReap(p: Pid)
      requires p in procs
      modifies this`procs
      ensures View() == if old(procs[p].finished) then old(View()).(procs := old(procs) - {p}) else old(View())
    {
      if !procs[p].finished {
        return;
      }
      procs := procs - {p};
    }

    /** The timer interrupt.  One that finds the kernel running only counts. */
    method TimerInterrupt(inKernel: bool)
      modifies this
      ensures inKernel ==> View() == Next(old(View()), KernelTick)
      ensures !inKernel ==> View() == Scheduling.Schedule(WakeSleeper(old(View()).(tick := old(tick) + 1)), false)
    {
      tick := tick + 1;
      if inKernel {
        return;
      }
      WakeupSleeping();
      Schedule(false);
    }

    /** Every step of the transition system is one of the methods above. */
    method Perform(step: Step)
      requires Enabled(View(), step)
      modifies this
      ensures View() == Next(old(View()), step)
    {
      hide Scheduling.Schedule, Scheduling.TryOrBlock, Scheduling.ReleaseMutex, Scheduling.WakeSleeper,
        Scheduling.GoToSleep, Scheduling.ExitCurrent, Scheduling.ForkChild;
      match step {
        case Yield => Schedule(false);
        case UserTick => TimerInterrupt(false);
        case KernelTick => TimerInterrupt(true);
        case Sleep(milliseconds) => SleepFor(milliseconds);
        case Acquire(m) => MutexAcquire(m);
        case Wait(m) => MutexWait(m);
        case TryAcquire(m) => var taken := MutexAcquireIfFree(m);
        case Retry =>
          if procs[current].todo.Acquiring? {
            MutexAcquire(procs[current].todo.m);
          } else {
            MutexWait(procs[current].todo.m);
          }
        case Release(m) => MutexRelease(m);
        case Fork => var child := ProcessFork();
        case Exit => ProcessExit();
        case Reap(p) => ProcessReap(p);
      }
    }
  }
}
