/** The task manager of virgoos/src/base/taskman.c and the interrupt exit of virgoos/src/base/sosbasic.c as they are
    written: scans that start at a bound, conditions that skip the scan, and reschedules put off until the outermost
    interrupt ends.  Every method is proved to do one step of SchedulerModel. */
module TaskManagers {
  import opened Common
  import opened TaskOrder
  import opened SchedulerModel

  ghost predicate EmptyBelow(ready: seq<seq<Task>>, bound: nat) {
    forall p :: 0 <= p < bound && p < |ready| ==> ready[p] == []
  }

  /** A changed queue lowers the bound to its own level at most. */
  lemma StillEmptyBelow(ready: seq<seq<Task>>, bound: nat, p: nat, q: seq<Task>)
    requires EmptyBelow(ready, bound) && p < |ready|
    ensures EmptyBelow(ready[p := q], Min(bound, p))
  {
  }

  class TaskManager {
    /** task_q[..][TASK_READY] */
    var ready: seq<seq<Task>>
    /** The wait queues in use, task_q[..][TASK_WAITING] among them. */
    var waiting: seq<seq<Task>>
    var runningTask: Option<Task>
    var runningIrq: nat
    var pendingReschedule: bool
    var pendingReschedulePriority: nat
    /** How the wait queues are linked. */
    var links: seq<Links>
    /** No task has been started yet. */
    ghost var booting: bool

    ghost function View(): Sched
      reads this
    {
      Sched(ready, waiting, runningTask, runningIrq, links, booting)
    }

    /** What lets the scans start at their bounds: every queue more urgent than the running task and than a pending
        reschedule is empty, and without a pending reschedule the running task heads its queue. */
    ghost predicate Valid()
      reads this
    {
      && Consistent(View())
      && (pendingReschedule <==> pendingReschedulePriority < NUM_PRIORITY_LEVELS)
      && pendingReschedulePriority <= NUM_PRIORITY_LEVELS
      && (runningIrq == 0 ==> !pendingReschedule)
      && (runningTask.Some? && pendingReschedule ==> pendingReschedulePriority <= runningTask.value.priority)
      && (runningTask.Some? && !pendingReschedule ==> ready[runningTask.value.priority][0] == runningTask.value)
      && EmptyBelow(ready, Limit())
    }

    /** Where a scan can start. */
    ghost function Limit(): nat
      reads this
    {
      if runningTask.Some? && !pendingReschedule then runningTask.value.priority else pendingReschedulePriority
    }

    constructor (waitQueues: nat)
      ensures Valid()
      ensures View() == Sched(seq(NUM_PRIORITY_LEVELS, _ => []), seq(waitQueues, _ => []), None, 0,
                              seq(waitQueues, _ => Proper), true)
    {
      ready := seq(NUM_PRIORITY_LEVELS, _ => []);
      waiting := seq(waitQueues, _ => []);
      runningTask := None;
      runningIrq := 0;
      pendingReschedule := false;
      pendingReschedulePriority := NUM_PRIORITY_LEVELS;
      links := seq(waitQueues, _ => Proper);
      booting := true;
      new;
      ElectIsMostUrgent(ready, 0);
    }

    /** reschedule. */
    method Reschedule(bound: nat)
      requires |ready| == NUM_PRIORITY_LEVELS && bound < NUM_PRIORITY_LEVELS
      requires runningIrq == 0 ==> EmptyBelow(ready, bound)
      modifies `runningTask, `pendingReschedule, `pendingReschedulePriority
      ensures runningIrq > 0 ==> runningTask == old(runningTask) && pendingReschedule
      ensures runningIrq > 0 ==>
        pendingReschedulePriority == Min(bound, old(pendingReschedulePriority))
      ensures runningIrq == 0 ==> !pendingReschedule && pendingReschedulePriority == NUM_PRIORITY_LEVELS
      ensures runningIrq == 0 ==> runningTask == Elect(ready, 0)
    {
      if runningIrq != 0 {
        pendingReschedule := true;
        if bound < pendingReschedulePriority {
          pendingReschedulePriority := bound;
        }
        return;
      }
      pendingReschedule := false;
      pendingReschedulePriority := NUM_PRIORITY_LEVELS;
      ElectSkips(ready, 0, bound);
      var i := bound;
      while i < NUM_PRIORITY_LEVELS
        invariant bound <= i <= NUM_PRIORITY_LEVELS
        invariant Elect(ready, 0) == Elect(ready, i)
      {
        if ready[i] != [] {
          runningTask := Some(ready[i][0]);
          return;
        }
        i := i + 1;
      }
      runningTask := None;
    }

    /** The queueing part of start_task and its conditional reschedule. */
    method StartTask(t: Task)
      requires Valid() && Enabled(View(), Start(t))
      modifies this
      ensures Valid() && View() == Next(old(View()), Start(t))
    {
      NextConsistent(View(), Start(t));
      ghost var next := Next(View(), Start(t));
      Levels(next);
      RunningPlace(View());
      hide Consistent, AtOwnLevels, Elect, EmptyBelow, Enabled;
      var priority := t.priority;
      if runningTask.Some? && runningTask.value.priority < priority {
        priority := runningTask.value.priority;
      }
      StillEmptyBelow(ready, Limit(), t.priority, ready[t.priority] + [t]);
      ready := ready[t.priority := ready[t.priority] + [t]];
      booting := false;
      assert next == Settle(View());
      hide Next;
      if runningTask.None? || priority < runningTask.value.priority {
        Reschedule(priority);
        ElectedHeads();
      } else if runningIrq == 0 {
        StillElected();
      }
    }

    /** terminate. */
    method TerminateTask()
      requires Valid() && Enabled(View(), Terminate)
      modifies this
      ensures Valid() && View() == Next(old(View()), Terminate)
    {
      NextConsistent(View(), Terminate);
      Levels(Next(View(), Terminate));
      RunningPlace(View());
      hide Consistent, AtOwnLevels, Elect, EmptyBelow;
      var bound := runningTask.value.priority;
      StillEmptyBelow(ready, Limit(), bound, ready[bound][1..]);
      ready := ready[bound := ready[bound][1..]];
      runningTask := None;
      Reschedule(bound);
      ElectedHeads();
    }

    /** nap, and yield with the waiting queue of the running level. */
    method NapOn(q: nat)
      requires Valid() && Enabled(View(), Nap(q))
      modifies this
      ensures Valid() && View() == Next(old(View()), Nap(q))
    {
      NextConsistent(View(), Nap(q));
      Levels(Next(View(), Nap(q)));
      RunningPlace(View());
      hide Consistent, AtOwnLevels, Elect, EmptyBelow, Joined, LinksAfterNap;
      var priority := runningTask.value.priority;
      var running := ready[priority][0];
      StillEmptyBelow(ready, Limit(), priority, ready[priority][1..]);
      ready := ready[priority := ready[priority][1..]];
      var q0, l := waiting[q], links[q];
      waiting := waiting[q := Joined(q0, l, running)];
      links := links[q := LinksAfterNap(q0, l, running)];
      Reschedule(priority);
      ElectedHeads();
    }

    /** wake. */
    method WakeFrom(q: nat) returns (ok: bool)
      requires Valid() && Enabled(View(), Wake(q))
      modifies this
      ensures Valid() && View() == Next(old(View()), Wake(q))
      ensures ok <==> old(waiting[q]) != []
    {
      NextConsistent(View(), Wake(q));
      if waiting[q] == [] {
        return false;
      }
      ghost var next := Next(View(), Wake(q));
      Levels(next);
      RunningPlace(View());
      var t := waiting[q][0];
      assert t.priority < NUM_PRIORITY_LEVELS;
      hide Consistent, AtOwnLevels, Elect, EmptyBelow, Enabled, Left, LinksAfterWake;
      StillEmptyBelow(ready, Limit(), t.priority, ready[t.priority] + [t]);
      waiting := waiting[q := Left(waiting[q], links[q])];
      links := links[q := LinksAfterWake(links[q])];
      ready := ready[t.priority := ready[t.priority] + [t]];
      assert next == Settle(View());
      hide Next;
      if runningTask.None? || t.priority <= runningTask.value.priority {
        Reschedule(t.priority);
        ElectedHeads();
      } else if runningIrq == 0 {
        StillElected();
      }
      return true;
    }

    /** set_running_task_priority: raising needs no reschedule. */
    method SetPriority(p: nat)
      requires Valid() && Enabled(View(), SetRunningPriority(p))
      modifies this
      ensures Valid() && View() == Next(old(View()), SetRunningPriority(p))
    {
      NextConsistent(View(), SetRunningPriority(p));
      if p == runningTask.value.priority {
        return;
      }
      ghost var next := Next(View(), SetRunningPriority(p));
      Levels(next);
      RunningPlace(View());
      assert p < runningTask.value.priority ==> ready[p] == [];
      hide Consistent, AtOwnLevels, Elect, EmptyBelow, Enabled;
      var oldPriority := runningTask.value.priority;
      var q := ready[oldPriority][0];
      StillEmptyBelow(ready, Limit(), oldPriority, ready[oldPriority][1..]);
      ready := ready[oldPriority := ready[oldPriority][1..]];
      q := q.(priority := p);
      StillEmptyBelow(ready, oldPriority, p, ready[p] + [q]);
      ready := ready[p := ready[p] + [q]];
      runningTask := Some(q);
      assert next == Settle(old(View()).(ready := ready));
      hide Next;
      if oldPriority < p {
        Reschedule(oldPriority);
        ElectedHeads();
      } else {
        StillElected();
      }
    }

    /** timer_handler, called from the timer interrupt. */
    method TimerHandler()
      requires Valid() && Enabled(View(), Tick)
      modifies this
      ensures Valid() && View() == Next(old(View()), Tick)
    {
      NextConsistent(View(), Tick);
      RunningPlace(View());
      hide Consistent, AtOwnLevels, Elect, EmptyBelow;
      if runningTask.None? {
        return;
      }
      if runningTask.value.timeshare {
        var p := runningTask.value.priority;
        StillEmptyBelow(ready, Limit(), p, Rotated(ready[p]));
        if |ready[p]| > 1 {
          ready := ready[p := ready[p][1..] + [ready[p][0]]];
        }
        assert ready == old(ready)[p := Rotated(old(ready)[p])];
        Reschedule(p);
      }
    }

    /** Entry of call_int_callbacks. */
    method EnterIrq()
      requires Valid()
      modifies this
      ensures Valid() && View() == Next(old(View()), IrqEnter)
    {
      NextConsistent(View(), IrqEnter);
      RunningPlace(View());
      if runningIrq == 0 {
        }
      runningIrq := runningIrq + 1;
    }

    /** End of call_int_callbacks: a pending reschedule is done once the outermost interrupt ends. */
    method ExitIrq()
      requires Valid() && Enabled(View(), IrqExit)
      modifies this
      ensures Valid() && View() == Next(old(View()), IrqExit)
    {
      NextConsistent(View(), IrqExit);
      Levels(View());
      RunningPlace(View());
      hide Consistent, AtOwnLevels, Elect, EmptyBelow;
      runningIrq := runningIrq - 1;
      if pendingReschedule {
        pendingReschedule := false;
        Reschedule(pendingReschedulePriority);
        if runningIrq == 0 {
          ElectedHeads();
        }
      } else if runningIrq == 0 {
        StillElected();
      }
    }

    lemma Levels(s: Sched)
      requires Consistent(s)
      ensures |s.ready| == NUM_PRIORITY_LEVELS && AtOwnLevels(s.ready)
    {
    }

    /** A running task that heads its queue below empty ones is the elected one. */
    lemma StillElected()
      requires |ready| == NUM_PRIORITY_LEVELS
      requires runningTask.Some? ==>
        && runningTask.value.priority < NUM_PRIORITY_LEVELS && ready[runningTask.value.priority] != []
        && ready[runningTask.value.priority][0] == runningTask.value && EmptyBelow(ready, runningTask.value.priority)
      requires runningTask.None? ==> EmptyBelow(ready, NUM_PRIORITY_LEVELS)
      ensures runningTask == Elect(ready, 0)
    {
      if runningTask.Some? {
        ElectAt(ready, runningTask.value.priority);
      } else {
        ElectSkips(ready, 0, NUM_PRIORITY_LEVELS);
      }
    }

    /** The elected task heads its queue below empty ones. */
    lemma ElectedHeads()
      requires |ready| == NUM_PRIORITY_LEVELS
      requires AtOwnLevels(ready)
      ensures Elect(ready, 0).Some? ==>
        var t := Elect(ready, 0).value;
        && t.priority < NUM_PRIORITY_LEVELS && ready[t.priority] != [] && ready[t.priority][0] == t
        && EmptyBelow(ready, t.priority)
      ensures Elect(ready, 0).None? ==> EmptyBelow(ready, NUM_PRIORITY_LEVELS)
    {
      ElectIsMostUrgent(ready, 0);
    }
  }
}
