/** In which order the ready queues of virgoos/src/base/taskman.c serve their tasks, over steps and over runs of
    SchedulerModel, told by the tasks that enter and leave a level and not by the queues themselves. */
module SchedulerOrder {
  import opened TaskOrder
  import opened SchedulerModel

  /** The task that an event makes ready, or moves, at level p. */
  function Enters(s: Sched, e: Event, p: nat): seq<Task>
    requires Consistent(s) && Enabled(s, e) && p < NUM_PRIORITY_LEVELS
  {
    match e
    case Start(t) => if t.priority == p then [t] else []
    case Wake(q) => if s.waiting[q] != [] && s.waiting[q][0].priority == p then [s.waiting[q][0]] else []
    case SetRunningPriority(p') =>
      if p' == p && s.running.value.priority != p then [s.running.value.(priority := p)] else []
    case Tick => Turned(s, p)
    case _ => []
  }

  /** The task that an event takes off the front of level p. */
  function Leaves(s: Sched, e: Event, p: nat): seq<Task>
    requires Consistent(s) && Enabled(s, e) && p < NUM_PRIORITY_LEVELS
  {
    match e
    case Terminate => if s.running.value.priority == p then [s.running.value] else []
    case Nap(_) => if s.running.value.priority == p then [s.running.value] else []
    case SetRunningPriority(p') =>
      if p' != p && s.running.value.priority == p then [s.running.value] else []
    case Tick => Turned(s, p)
    case _ => []
  }

  /** The task that a tick sends from the front of level p to its end. */
  function Turned(s: Sched, p: nat): seq<Task>
    requires Consistent(s) && p < NUM_PRIORITY_LEVELS
  {
    if s.running.Some? && s.running.value.timeshare && s.running.value.priority == p then [s.ready[p][0]] else []
  }

  lemma TurnIsQueue(q: seq<Task>)
    requires q != []
    ensures q + [q[0]] == [q[0]] + Rotated(q)
  {
    assert q == [q[0]] + q[1..];
  }

  lemma HeadOff(q: seq<Task>, t: Task)
    requires q != [] && q[0] == t
    ensures q + [] == [t] + q[1..]
  {
  }

  /** Every event treats every level as a queue: what stood there, and then what enters, is what leaves, and then what
      stands there. */
  lemma StepIsQueue(s: Sched, e: Event, p: nat)
    requires Consistent(s) && Enabled(s, e) && p < NUM_PRIORITY_LEVELS
    ensures |Next(s, e).ready| == NUM_PRIORITY_LEVELS
    ensures s.ready[p] + Enters(s, e, p) == Leaves(s, e, p) + Next(s, e).ready[p]
  {
    RunningPlace(s);
    hide Elect, Rotated;
    var q := s.ready[p];
    assert q + [] == [] + q;
    match e
    case Start(t) =>
      assert q + [t] == [] + (q + [t]);
    case Terminate =>
      if s.running.value.priority == p {
        HeadOff(q, s.running.value);
      }
    case Nap(_) =>
      if s.running.value.priority == p {
        HeadOff(q, s.running.value);
      }
    case Wake(w) =>
      if s.waiting[w] != [] {
        WokenLevel(s, w);
        assert q + [s.waiting[w][0]] == [] + (q + [s.waiting[w][0]]);
      }
    case SetRunningPriority(p') =>
      var t := s.running.value.(priority := p);
      assert q + [t] == [] + (q + [t]);
      if s.running.value.priority == p {
        HeadOff(q, s.running.value);
      }
    case Tick =>
      if Turned(s, p) != [] {
        TurnIsQueue(q);
      }
    case IrqEnter =>
    case IrqExit =>
  }

  lemma WokenLevel(s: Sched, q: nat)
    requires Consistent(s) && q < |s.waiting| && s.waiting[q] != []
    ensures s.waiting[q][0].priority < NUM_PRIORITY_LEVELS
  {
  }

  /** Queue r is q without the tasks y at its front and with the tasks x behind it. */
  ghost predicate KeepsOrder(q: seq<Task>, x: seq<Task>, y: seq<Task>, r: seq<Task>) {
    && |y| <= 1 && |y| <= |q| && |r| == |q| - |y| + |x|
    && (forall i :: |y| <= i < |q| ==> r[i - |y|] == q[i])
    && (x != [] ==> r[|r| - 1] == x[0])
  }

  /** So the tasks of a level that stay keep their order, and one that becomes ready, or is moved there, stands behind
      all that were ready at its level. */
  lemma OrderKept(s: Sched, e: Event, p: nat)
    requires Consistent(s) && Enabled(s, e) && p < NUM_PRIORITY_LEVELS
    ensures |s.ready| == |Next(s, e).ready| == NUM_PRIORITY_LEVELS
    ensures KeepsOrder(s.ready[p], Enters(s, e, p), Leaves(s, e, p), Next(s, e).ready[p])
  {
    StepIsQueue(s, e, p);
    LeavesFront(s, e, p);
    EntersOne(s, e, p);
    hide *;
    QueueShape(s.ready[p], Enters(s, e, p), Leaves(s, e, p), Next(s, e).ready[p]);
  }

  lemma QueueShape(q: seq<Task>, x: seq<Task>, y: seq<Task>, r: seq<Task>)
    requires q + x == y + r && |x| <= 1 && |y| <= 1 && |y| <= |q|
    ensures KeepsOrder(q, x, y, r)
  {
    assert |q + x| == |y + r|;
    forall i | |y| <= i < |q|
      ensures r[i - |y|] == q[i]
    {
      assert (q + x)[i] == (y + r)[i];
    }
    if x != [] {
      assert (q + x)[|q|] == (y + r)[|q|];
    }
  }

  lemma LeavesFront(s: Sched, e: Event, p: nat)
    requires Consistent(s) && Enabled(s, e) && p < NUM_PRIORITY_LEVELS
    ensures |s.ready| == NUM_PRIORITY_LEVELS && |Leaves(s, e, p)| <= 1
    ensures Leaves(s, e, p) != [] ==> s.ready[p] != [] && s.ready[p][0] == Leaves(s, e, p)[0]
  {
    RunningPlace(s);
  }

  lemma EntersOne(s: Sched, e: Event, p: nat)
    requires Consistent(s) && Enabled(s, e) && p < NUM_PRIORITY_LEVELS
    ensures |Enters(s, e, p)| <= 1
  {
  }

  // ---------------------------------------------------------------- runs

  ghost function EnteredIn(s: Sched, es: seq<Event>, p: nat): seq<Task>
    requires Consistent(s) && Possible(s, es) && p < NUM_PRIORITY_LEVELS
    decreases |es|
  {
    if es == [] then [] else
      NextConsistent(s, es[0]);
      Enters(s, es[0], p) + EnteredIn(Next(s, es[0]), es[1..], p)
  }

  ghost function LeftIn(s: Sched, es: seq<Event>, p: nat): seq<Task>
    requires Consistent(s) && Possible(s, es) && p < NUM_PRIORITY_LEVELS
    decreases |es|
  {
    if es == [] then [] else
      NextConsistent(s, es[0]);
      Leaves(s, es[0], p) + LeftIn(Next(s, es[0]), es[1..], p)
  }

  /** First come, first served: over any run the tasks leave a level in the order in which they stood there at the start
      and then entered, and those that have not left still stand there in that order. */
  lemma {:induction false} FirstComeFirstServed(s: Sched, es: seq<Event>, p: nat)
    requires Consistent(s) && Possible(s, es) && p < NUM_PRIORITY_LEVELS
    ensures |After(s, es).ready| == |s.ready| == NUM_PRIORITY_LEVELS
    ensures s.ready[p] + EnteredIn(s, es, p) == LeftIn(s, es, p) + After(s, es).ready[p]
    decreases |es|
  {
    if es == [] {
      assert s.ready[p] + [] == [] + s.ready[p];
    } else {
      var e, r := es[0], Next(s, es[0]);
      NextConsistent(s, e);
      StepIsQueue(s, e, p);
      LeavesFront(s, e, p);
      hide Next, Consistent, Enters, Leaves, Enabled;
      FirstComeFirstServed(r, es[1..], p);
      Chained(s.ready[p], Enters(s, e, p), Leaves(s, e, p), r.ready[p], EnteredIn(r, es[1..], p), LeftIn(r, es[1..], p),
              After(r, es[1..]).ready[p]);
    }
  }

  lemma Chained(q: seq<Task>, x: seq<Task>, y: seq<Task>, r: seq<Task>, xs: seq<Task>, ys: seq<Task>, z: seq<Task>)
    requires q + x == y + r && r + xs == ys + z
    ensures q + (x + xs) == (y + ys) + z
  {
    assert q + (x + xs) == (q + x) + xs == (y + r) + xs == y + (r + xs);
    assert y + (ys + z) == (y + ys) + z;
  }

  // ---------------------------------------------------------------- who runs

  /** The task that an event makes ready. */
  function MadeReady(s: Sched, e: Event): seq<Task>
    requires Consistent(s) && Enabled(s, e)
  {
    match e
    case Start(t) => [t]
    case Wake(q) => if s.waiting[q] != [] then [s.waiting[q][0]] else []
    case _ => []
  }

  /** Outside interrupts a start or a wake takes the processor from the running task exactly if the new task is strictly
      more urgent, and then the new task has it. */
  lemma PreemptsExactly(s: Sched, e: Event)
    requires Consistent(s) && Enabled(s, e) && s.depth == 0 && s.running.Some? && (e.Start? || e.Wake?)
    ensures var ts := MadeReady(s, e);
      var urgent := ts != [] && ts[0].priority < s.running.value.priority;
      Next(s, e).running == if urgent then Some(ts[0]) else s.running
  {
    RunningMostUrgent(s);
    NextConsistent(s, e);
    var ts := MadeReady(s, e);
    if ts != [] {
      var t, r := ts[0], Next(s, e);
      if e.Wake? {
        WokenLevel(s, e.q);
      }
      var p := s.running.value.priority;
      assert r.ready == s.ready[t.priority := s.ready[t.priority] + [t]];
      assert (s.ready[p] + [t])[0] == s.ready[p][0];
      ElectAt(r.ready, if t.priority < p then t.priority else p);
    }
  }

  lemma RunningMostUrgent(s: Sched)
    requires Consistent(s) && s.depth == 0 && s.running.Some?
    ensures var p := s.running.value.priority;
      && |s.ready| == NUM_PRIORITY_LEVELS && p < NUM_PRIORITY_LEVELS
      && s.ready[p] != [] && s.ready[p][0] == s.running.value && forall r :: 0 <= r < p ==> s.ready[r] == []
  {
    RunningIsMostUrgent(s);
  }

  /** Interrupts nest, and inside them the running task stays; the choice is made by the exit of the outermost one. */
  lemma DeferredInside(s: Sched, e: Event)
    requires Consistent(s) && Enabled(s, e)
    ensures Next(s, e).depth == (if e.IrqEnter? then s.depth + 1 else if e.IrqExit? then s.depth - 1 else s.depth)
    ensures Next(s, e).depth > 0 ==> Next(s, e).running == s.running
  {
    hide Consistent, Elect;
  }

  /** After a change of its own priority the running task is at the new level, behind those there; raised, it still
      runs. */
  lemma MovedRunning(s: Sched, p: nat)
    requires Consistent(s) && Enabled(s, SetRunningPriority(p)) && p != s.running.value.priority
    ensures var t, r := s.running.value.(priority := p), Next(s, SetRunningPriority(p));
      && |r.ready| == |s.ready| == NUM_PRIORITY_LEVELS && r.ready[p] == s.ready[p] + [t]
      && r.ready[s.running.value.priority] == s.ready[s.running.value.priority][1..]
      && (p < s.running.value.priority ==> r.running == Some(t))
  {
    RunningMostUrgent(s);
    var t, r := s.running.value.(priority := p), Next(s, SetRunningPriority(p));
    if p < s.running.value.priority {
      ElectAt(r.ready, p);
    }
  }

  // ---------------------------------------------------------------- wait queues

  /** A nap does the written enqueue of a mixed-priority queue to its wait queue, a wake the written dequeue, and
      nothing else touches one. */
  lemma WaitQueueIsWritten(s: Sched, e: Event, q: nat)
    requires Consistent(s) && Enabled(s, e) && q < |s.waiting|
    ensures var was := Chain(s.waiting[q], s.links[q], true);
      && |Next(s, e).waiting| == |s.waiting| && |s.links| == |s.waiting|
      && Next(s, e).waiting[q]
         == (if e == Nap(q) then AfterEnqueue(was, s.running.value, true)
             else if e == Wake(q) then AfterDequeue(was) else was).tasks
  {
    hide Elect;
    assert LinksFit(s);
  }
}
