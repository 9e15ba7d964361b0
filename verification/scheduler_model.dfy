/** What the task manager of virgoos/src/base/taskman.c promises: outside interrupts the task at the head of the most
    urgent ready queue runs, and inside interrupts the choice waits for the end of the outermost one.
    TaskManagers proves that the code, with its bounds and deferred reschedules, does this. */
module SchedulerModel {
  import opened TaskOrder

  const NUM_PRIORITY_LEVELS: nat := 256

  datatype Option<T> = None | Some(value: T)

  /** Ready queues by priority, wait queues with the way they are linked, the running task, the interrupt nesting depth,
      and whether the first task is still to start. */
  datatype Sched =
    Sched(ready: seq<seq<Task>>, waiting: seq<seq<Task>>, running: Option<Task>, depth: nat, links: seq<Links>,
          booting: bool)

  /** Head of the most urgent non-empty ready queue at level `from` or beyond. */
  function Elect(ready: seq<seq<Task>>, from: nat): Option<Task>
    decreases |ready| - from
  {
    if from >= |ready| then None
    else if ready[from] != [] then Some(ready[from][0])
    else Elect(ready, from + 1)
  }

  function Settle(s: Sched): Sched {
    if s.depth == 0 then s.(running := Elect(s.ready, 0)) else s
  }

  datatype Event =
    | Start(t: Task)
    | Terminate
    | Nap(q: nat)
    | Wake(q: nat)
    | SetRunningPriority(p: nat)
    | Tick
    | IrqEnter
    | IrqExit

  ghost predicate AtOwnLevels(ready: seq<seq<Task>>) {
    forall p, i :: 0 <= p < |ready| && 0 <= i < |ready[p]| ==> ready[p][i].priority == p
  }

  ghost predicate WithLevels(waiting: seq<seq<Task>>) {
    forall q, i :: 0 <= q < |waiting| && 0 <= i < |waiting[q]| ==> waiting[q][i].priority < NUM_PRIORITY_LEVELS
  }

  /** Every ready task is queued at its own level, and the running task is one of them. */
  ghost predicate Consistent(s: Sched) {
    && |s.ready| == NUM_PRIORITY_LEVELS
    && AtOwnLevels(s.ready)
    && WithLevels(s.waiting)
    && (s.running.Some? ==>
          s.running.value.priority < NUM_PRIORITY_LEVELS && s.running.value in s.ready[s.running.value.priority])
    && (s.depth == 0 ==> s.running == Elect(s.ready, 0))
    && LinksFit(s)
  }

  ghost predicate LinksFit(s: Sched) {
    |s.links| == |s.waiting| && forall q :: 0 <= q < |s.links| && !s.links[q].Proper? ==> |s.waiting[q]| == 1
  }

  /** Somebody can make a call: the running task, an interrupt handler, or the code that starts the first task.  With
      nobody running reschedule does not return, and only interrupts go on. */
  predicate Alive(s: Sched) {
    s.running.Some? || s.depth > 0 || s.booting
  }

  /** What callers owe: levels exist, calls that end or move the running task come from that task, not from a handler;
      the timer handler is an interrupt handler.  A run goes on without the naps and wakes on a wait queue whose head
      pointer leads into another queue: they would work on the links of that one. */
  ghost predicate Enabled(s: Sched, e: Event)
    requires |s.links| == |s.waiting|
  {
    match e
    case Start(t) => t.priority < NUM_PRIORITY_LEVELS && Alive(s)
    case Terminate => s.depth == 0 && s.running.Some?
    case Nap(q) => s.depth == 0 && s.running.Some? && q < |s.waiting| && !s.links[q].Shared?
    case Wake(q) => q < |s.waiting| && !s.links[q].Shared? && Alive(s)
    case SetRunningPriority(p) => s.depth == 0 && s.running.Some? && p < NUM_PRIORITY_LEVELS
    case Tick => s.depth > 0
    case IrqEnter => true
    case IrqExit => s.depth > 0
  }

  function Rotated(q: seq<Task>): seq<Task> {
    if |q| > 1 then q[1..] + [q[0]] else q
  }

  function Next(s: Sched, e: Event): Sched
    requires Consistent(s) && Enabled(s, e)
  {
    match e
    case Start(t) => Settle(s.(ready := s.ready[t.priority := s.ready[t.priority] + [t]], booting := false))
    case Terminate =>
      var p := s.running.value.priority;
      Settle(s.(ready := s.ready[p := s.ready[p][1..]]))
    case Nap(q) =>
      var t := s.running.value;
      var p := t.priority;
      Settle(s.(ready := s.ready[p := s.ready[p][1..]],
                waiting := s.waiting[q := Joined(s.waiting[q], s.links[q], t)],
                links := s.links[q := LinksAfterNap(s.waiting[q], s.links[q], t)]))
    case Wake(q) =>
      if s.waiting[q] == [] then s
      else
        var t := s.waiting[q][0];
        Settle(s.(ready := s.ready[t.priority := s.ready[t.priority] + [t]],
                  waiting := s.waiting[q := Left(s.waiting[q], s.links[q])],
                  links := s.links[q := LinksAfterWake(s.links[q])]))
    case SetRunningPriority(p) =>
      var t := s.running.value;
      if p == t.priority then s
      else
        var left := s.ready[t.priority := s.ready[t.priority][1..]];
        Settle(s.(ready := left[p := left[p] + [t.(priority := p)]]))
    case Tick =>
      if s.running.Some? && s.running.value.timeshare
      then var p := s.running.value.priority; s.(ready := s.ready[p := Rotated(s.ready[p])])
      else s
    case IrqEnter => s.(depth := s.depth + 1)
    case IrqExit => Settle(s.(depth := s.depth - 1))
  }

  /** The elected task heads its level, and every more urgent level is empty. */
  lemma {:induction false} ElectIsMostUrgent(ready: seq<seq<Task>>, from: nat)
    requires from <= |ready|
    ensures Elect(ready, from).None? ==> forall p :: from <= p < |ready| ==> ready[p] == []
    ensures Elect(ready, from).Some? ==>
      exists p :: from <= p < |ready| && ready[p] != [] && Elect(ready, from).value == ready[p][0]
                  && forall r :: from <= r < p ==> ready[r] == []
    decreases |ready| - from
  {
    if from < |ready| && ready[from] == [] {
      ElectIsMostUrgent(ready, from + 1);
    }
  }

  lemma {:induction false} ElectSkips(ready: seq<seq<Task>>, from: nat, bound: nat)
    requires from <= bound <= |ready| && forall p :: from <= p < bound ==> ready[p] == []
    ensures Elect(ready, from) == Elect(ready, bound)
    decreases bound - from
  {
    if from < bound {
      ElectSkips(ready, from + 1, bound);
    }
  }

  lemma ElectAt(ready: seq<seq<Task>>, p: nat)
    requires p < |ready| && ready[p] != [] && forall r :: 0 <= r < p ==> ready[r] == []
    ensures Elect(ready, 0) == Some(ready[p][0])
  {
    ElectSkips(ready, 0, p);
  }

  /** Outside interrupts the running task heads its queue and all more urgent queues are empty. */
  lemma RunningIsMostUrgent(s: Sched)
    requires Consistent(s) && s.depth == 0
    ensures s.running.None? ==> forall p :: 0 <= p < NUM_PRIORITY_LEVELS ==> s.ready[p] == []
    ensures s.running.Some? ==>
      var p := s.running.value.priority;
      s.ready[p] != [] && s.ready[p][0] == s.running.value && forall r :: 0 <= r < p ==> s.ready[r] == []
  {
    ElectIsMostUrgent(s.ready, 0);
  }

  lemma SettleConsistent(s: Sched)
    requires |s.ready| == NUM_PRIORITY_LEVELS && LinksFit(s)
    requires AtOwnLevels(s.ready)
    requires WithLevels(s.waiting)
    requires s.depth > 0 && s.running.Some? ==>
      && s.running.value.priority < NUM_PRIORITY_LEVELS
      && s.running.value in s.ready[s.running.value.priority]
    ensures Consistent(Settle(s))
  {
    ElectIsMostUrgent(s.ready, 0);
  }

  lemma NapConsistent(s: Sched, q: nat)
    requires Consistent(s) && Enabled(s, Nap(q))
    ensures Consistent(Next(s, Nap(q)))
  {
    RunningPlace(s);
    var t := s.running.value;
    var r := s.(ready := s.ready[t.priority := s.ready[t.priority][1..]],
                waiting := s.waiting[q := Joined(s.waiting[q], s.links[q], t)],
                links := s.links[q := LinksAfterNap(s.waiting[q], s.links[q], t)]);
    JoinedElements(s.waiting[q], s.links[q], t);
    hide Joined, Elect, LosesHead;
    SettleConsistent(r);
  }

  lemma WakeConsistent(s: Sched, q: nat)
    requires Consistent(s) && Enabled(s, Wake(q))
    ensures Consistent(Next(s, Wake(q)))
  {
    if s.waiting[q] != [] {
      var t := s.waiting[q][0];
      SettleConsistent(s.(ready := s.ready[t.priority := s.ready[t.priority] + [t]],
                          waiting := s.waiting[q := Left(s.waiting[q], s.links[q])],
                          links := s.links[q := LinksAfterWake(s.links[q])]));
    }
  }

  /** Every event leaves a consistent state: after it, outside interrupts, the most urgent ready task runs. */
  lemma NextConsistent(s: Sched, e: Event)
    requires Consistent(s) && Enabled(s, e)
    ensures Consistent(Next(s, e))
  {
    RunningPlace(s);
    match e
    case Start(t) =>
      SettleConsistent(s.(ready := s.ready[t.priority := s.ready[t.priority] + [t]], booting := false));
    case Terminate =>
      var p := s.running.value.priority;
      SettleConsistent(s.(ready := s.ready[p := s.ready[p][1..]]));
    case Nap(q) =>
      NapConsistent(s, q);
    case Wake(q) =>
      WakeConsistent(s, q);
    case SetRunningPriority(p) =>
      var t := s.running.value;
      if p != t.priority {
        var left := s.ready[t.priority := s.ready[t.priority][1..]];
        SettleConsistent(s.(ready := left[p := left[p] + [t.(priority := p)]]));
      }
    case Tick =>
      if s.running.Some? {
        RotatedElements(s.ready[s.running.value.priority]);
      }
    case IrqEnter =>
    case IrqExit =>
      SettleConsistent(s.(depth := s.depth - 1));
  }

  lemma RunningPlace(s: Sched)
    requires Consistent(s)
    ensures |s.ready| == NUM_PRIORITY_LEVELS && |s.links| == |s.waiting|
    ensures s.running.Some? ==> var p := s.running.value.priority;
      p < NUM_PRIORITY_LEVELS && s.ready[p] != [] && (s.depth == 0 ==> s.ready[p][0] == s.running.value)
  {
    if s.depth == 0 {
      RunningIsMostUrgent(s);
    }
  }

  lemma RotatedElements(q: seq<Task>)
    ensures multiset(Rotated(q)) == multiset(q) && |Rotated(q)| == |q|
    ensures forall t :: t in Rotated(q) <==> t in q
    ensures forall i :: 0 <= i < |q| ==> Rotated(q)[i] in q
  {
    if |q| > 1 {
      assert q == [q[0]] + q[1..];
    }
  }

  // ---------------------------------------------------------------- whole runs

  ghost predicate Possible(s: Sched, es: seq<Event>)
    requires Consistent(s)
    decreases |es|
  {
    es == [] || (Enabled(s, es[0]) && (NextConsistent(s, es[0]); Possible(Next(s, es[0]), es[1..])))
  }

  ghost function After(s: Sched, es: seq<Event>): (r: Sched)
    requires Consistent(s) && Possible(s, es)
    ensures Consistent(r)
    decreases |es|
  {
    if es == [] then s else
      NextConsistent(s, es[0]);
      After(Next(s, es[0]), es[1..])
  }

  /** How often task `id` sits in a queue, and in a list of queues. */
  function CountIn(q: seq<Task>, id: nat): nat {
    if q == [] then 0 else (if q[0].id == id then 1 else 0) + CountIn(q[1..], id)
  }

  function Count(qs: seq<seq<Task>>, id: nat): nat {
    if qs == [] then 0 else CountIn(qs[0], id) + Count(qs[1..], id)
  }

  lemma {:induction false} CountInConcat(a: seq<Task>, b: seq<Task>, id: nat)
    ensures CountIn(a + b, id) == CountIn(a, id) + CountIn(b, id)
  {
    if a == [] {
      assert a + b == b;
    } else {
      assert (a + b)[1..] == a[1..] + b;
      CountInConcat(a[1..], b, id);
    }
  }

  lemma {:induction false} CountUpdate(qs: seq<seq<Task>>, k: nat, q: seq<Task>, id: nat)
    requires k < |qs|
    ensures Count(qs[k := q], id) == Count(qs, id) - CountIn(qs[k], id) + CountIn(q, id)
  {
    if k > 0 {
      assert qs[k := q][1..] == qs[1..][k - 1 := q];
      CountUpdate(qs[1..], k - 1, q, id);
    } else {
      assert qs[k := q][1..] == qs[1..];
    }
  }

  function One(t: Task, id: nat): nat {
    if t.id == id then 1 else 0
  }

  lemma CountInTail(q: seq<Task>, id: nat)
    requires q != []
    ensures CountIn(q, id) == One(q[0], id) + CountIn(q[1..], id)
    ensures CountIn(q[1..] + [q[0]], id) == CountIn(q, id)
  {
    CountInAppend(q[1..], q[0], id);
  }

  lemma CountInAppend(q: seq<Task>, t: Task, id: nat)
    ensures CountIn(q + [t], id) == CountIn(q, id) + One(t, id)
  {
    CountInConcat(q, [t], id);
    assert [t][1..] == [];
  }

  lemma CountInInsert(q: seq<Task>, k: nat, t: Task, id: nat)
    requires k <= |q|
    ensures CountIn(InsertAt(q, k, t), id) == CountIn(q, id) + One(t, id)
  {
    assert q == q[..k] + q[k..];
    CountInConcat(q[..k], q[k..], id);
    CountInConcat(q[..k] + [t], q[k..], id);
    CountInAppend(q[..k], t, id);
  }

  /** How often task `id` sits in any queue. */
  function Present(s: Sched, id: nat): nat {
    Count(s.ready, id) + Count(s.waiting, id)
  }

  function Born(e: Event, id: nat): nat {
    if e.Start? then One(e.t, id) else 0
  }

  function Died(s: Sched, e: Event, id: nat): nat {
    if e.Terminate? && s.running.Some? then One(s.running.value, id) else 0
  }

  /** A nap that makes a waiting task unreachable. */
  predicate Loses(s: Sched, e: Event) {
    && e.Nap? && s.running.Some? && e.q < |s.waiting| && |s.links| == |s.waiting|
    && LosesHead(s.waiting[e.q], s.links[e.q], s.running.value)
  }

  function Lost(s: Sched, e: Event, id: nat): nat {
    if Loses(s, e) then One(s.waiting[e.q][0], id) else 0
  }

  /** A wake on the self-linked queue that such a nap leaves: the task becomes ready and stays queued. */
  predicate Duplicates(s: Sched, e: Event) {
    e.Wake? && e.q < |s.waiting| && |s.links| == |s.waiting| && s.links[e.q].SelfLinked? && s.waiting[e.q] != []
  }

  function Duplicated(s: Sched, e: Event, id: nat): nat {
    if Duplicates(s, e) then One(s.waiting[e.q][0], id) else 0
  }

  /** Moving the head of queue p to the end of queue p'. */
  lemma CountMove(qs: seq<seq<Task>>, p: nat, p': nat, t: Task, id: nat)
    requires p < |qs| && p' < |qs| && p != p' && qs[p] != [] && t.id == qs[p][0].id
    ensures var left := qs[p := qs[p][1..]]; Count(left[p' := left[p'] + [t]], id) == Count(qs, id)
  {
    var left := qs[p := qs[p][1..]];
    CountInTail(qs[p], id);
    CountUpdate(qs, p, qs[p][1..], id);
    CountInAppend(left[p'], t, id);
    CountUpdate(left, p', left[p'] + [t], id);
  }

  lemma CountAdd(qs: seq<seq<Task>>, p: nat, t: Task, id: nat)
    requires p < |qs|
    ensures Count(qs[p := qs[p] + [t]], id) == Count(qs, id) + One(t, id)
  {
    CountInAppend(qs[p], t, id);
    CountUpdate(qs, p, qs[p] + [t], id);
  }

  lemma CountRemove(qs: seq<seq<Task>>, p: nat, id: nat)
    requires p < |qs| && qs[p] != []
    ensures Count(qs[p := qs[p][1..]], id) == Count(qs, id) - One(qs[p][0], id)
  {
    CountInTail(qs[p], id);
    CountUpdate(qs, p, qs[p][1..], id);
  }

  lemma CountJoined(qs: seq<seq<Task>>, k: nat, l: Links, t: Task, id: nat)
    requires k < |qs|
    ensures Count(qs[k := Joined(qs[k], l, t)], id)
            == Count(qs, id) + One(t, id) - if LosesHead(qs[k], l, t) then One(qs[k][0], id) else 0
  {
    var q := qs[k];
    CountUpdate(qs, k, Joined(q, l, t), id);
    if LosesHead(q, l, t) {
      CountInTail(q, id);
      CountInAppend([], t, id);
      assert [] + [t] == [t];
    } else {
      CountInInsert(q, Place(Keys(q), t.priority), t, id);
    }
  }

  lemma NapConserves(s: Sched, q: nat, id: nat)
    requires Consistent(s) && Enabled(s, Nap(q))
    ensures Present(Next(s, Nap(q)), id) + Lost(s, Nap(q), id) == Present(s, id)
  {
    RunningPlace(s);
    hide Consistent, Elect, Count, CountIn, Joined, LosesHead, LinksAfterNap;
    var t := s.running.value;
    CountRemove(s.ready, t.priority, id);
    CountJoined(s.waiting, q, s.links[q], t, id);
  }

  lemma WakeConserves(s: Sched, q: nat, id: nat)
    requires Consistent(s) && Enabled(s, Wake(q))
    ensures Present(Next(s, Wake(q)), id) == Present(s, id) + Duplicated(s, Wake(q), id)
  {
    if s.waiting[q] != [] {
      var t := s.waiting[q][0];
      assert t.priority < |s.ready|;
      hide Consistent, Elect, Count, CountIn, LinksAfterWake;
      CountRemove(s.waiting, q, id);
      CountAdd(s.ready, t.priority, t, id);
      assert s.waiting[q := s.waiting[q]] == s.waiting;
    }
  }

  lemma MoveConserves(s: Sched, p: nat, id: nat)
    requires Consistent(s) && Enabled(s, SetRunningPriority(p))
    ensures Present(Next(s, SetRunningPriority(p)), id) == Present(s, id)
  {
    RunningPlace(s);
    hide Consistent, Elect, Count, CountIn;
    var t := s.running.value;
    if p != t.priority {
      CountMove(s.ready, t.priority, p, t.(priority := p), id);
    }
  }

  lemma TickConserves(s: Sched, id: nat)
    requires Consistent(s) && Enabled(s, Tick)
    ensures Present(Next(s, Tick), id) == Present(s, id)
  {
    RunningPlace(s);
    hide Consistent, Elect, Count, CountIn;
    if s.running.Some? && s.running.value.timeshare {
      var p := s.running.value.priority;
      CountInTail(s.ready[p], id);
      CountUpdate(s.ready, p, Rotated(s.ready[p]), id);
    }
  }

  /** Only terminate and a losing nap drop a task, and only a wake on the queue that a losing nap has left doubles
      one. */
  lemma NextConserves(s: Sched, e: Event, id: nat)
    requires Consistent(s) && Enabled(s, e)
    ensures Present(Next(s, e), id) + Died(s, e, id) + Lost(s, e, id)
            == Present(s, id) + Born(e, id) + Duplicated(s, e, id)
  {
    RunningPlace(s);
    hide Consistent, Elect, Count, CountIn, LosesHead;
    match e
    case Start(t) =>
      CountAdd(s.ready, t.priority, t, id);
    case Terminate =>
      CountRemove(s.ready, s.running.value.priority, id);
    case Nap(q) =>
      NapConserves(s, q, id);
    case Wake(q) =>
      WakeConserves(s, q, id);
    case SetRunningPriority(p) =>
      MoveConserves(s, p, id);
    case Tick =>
      TickConserves(s, id);
    case IrqEnter =>
    case IrqExit =>
  }

  ghost function Births(s: Sched, es: seq<Event>, id: nat): nat
    requires Consistent(s) && Possible(s, es)
    decreases |es|
  {
    if es == [] then 0 else
      NextConsistent(s, es[0]);
      Born(es[0], id) + Births(Next(s, es[0]), es[1..], id)
  }

  ghost function Deaths(s: Sched, es: seq<Event>, id: nat): nat
    requires Consistent(s) && Possible(s, es)
    decreases |es|
  {
    if es == [] then 0 else
      NextConsistent(s, es[0]);
      Died(s, es[0], id) + Deaths(Next(s, es[0]), es[1..], id)
  }

  /** The tasks lost, and the tasks doubled, in a run. */
  ghost function Losses(s: Sched, es: seq<Event>, id: nat): nat
    requires Consistent(s) && Possible(s, es)
    decreases |es|
  {
    if es == [] then 0 else
      NextConsistent(s, es[0]);
      Lost(s, es[0], id) + Losses(Next(s, es[0]), es[1..], id)
  }

  ghost function Doubles(s: Sched, es: seq<Event>, id: nat): nat
    requires Consistent(s) && Possible(s, es)
    decreases |es|
  {
    if es == [] then 0 else
      NextConsistent(s, es[0]);
      Duplicated(s, es[0], id) + Doubles(Next(s, es[0]), es[1..], id)
  }

  ghost predicate NeverLoses(s: Sched, es: seq<Event>)
    requires Consistent(s) && Possible(s, es)
    decreases |es|
  {
    es == [] ||
    (!Loses(s, es[0]) && (NextConsistent(s, es[0]); NeverLoses(Next(s, es[0]), es[1..])))
  }

  /** No wait queue is as a losing nap leaves it. */
  ghost predicate NoneLeft(s: Sched) {
    forall q :: 0 <= q < |s.links| ==> !s.links[q].SelfLinked?
  }

  /** In every state of a run each task sits in queues as often as it was started, has not terminated, was not lost and
      was not doubled; while no task has napped on a wait queue that held a single, less urgent task, none is lost and
      none doubled. */
  lemma {:induction false} RunConserves(s: Sched, es: seq<Event>, id: nat)
    requires Consistent(s) && Possible(s, es)
    ensures Present(After(s, es), id) + Deaths(s, es, id) + Losses(s, es, id)
            == Present(s, id) + Births(s, es, id) + Doubles(s, es, id)
    ensures NeverLoses(s, es) ==> Losses(s, es, id) == 0 && (NoneLeft(s) ==> Doubles(s, es, id) == 0)
    decreases |es|
  {
    if es != [] {
      NextConsistent(s, es[0]);
      NextConserves(s, es[0], id);
      hide Next, Present, Settle;
      RunConserves(Next(s, es[0]), es[1..], id);
      if NoneLeft(s) && !Loses(s, es[0]) {
        NoneLeftNext(s, es[0]);
      }
    }
  }

  lemma NoneLeftNext(s: Sched, e: Event)
    requires Consistent(s) && Enabled(s, e) && NoneLeft(s) && !Loses(s, e)
    ensures NoneLeft(Next(s, e))
  {
  }

  ghost predicate Touches(es: seq<Event>, q: nat) {
    Nap(q) in es || Wake(q) in es
  }

  /** The last nap or wake on queue q in the run was a losing nap. */
  ghost predicate LastNapLost(s: Sched, es: seq<Event>, q: nat)
    requires Consistent(s) && Possible(s, es)
    decreases |es|
  {
    es != [] &&
    (|| (es[0] == Nap(q) && Loses(s, es[0]) && !Touches(es[1..], q))
     || (NextConsistent(s, es[0]); LastNapLost(Next(s, es[0]), es[1..], q)))
  }

  lemma {:induction false} LeftExactlyByALosingNap(s: Sched, es: seq<Event>, q: nat)
    requires Consistent(s) && Possible(s, es) && q < |s.waiting|
    ensures |After(s, es).waiting| == |s.waiting|
    ensures After(s, es).links[q].SelfLinked? <==> LastNapLost(s, es, q) || (s.links[q].SelfLinked? && !Touches(es, q))
    decreases |es|
  {
    if es != [] {
      var e := es[0];
      NextConsistent(s, e);
      LinksNext(s, e, q);
      hide Next, Settle, Consistent;
      LeftExactlyByALosingNap(Next(s, e), es[1..], q);
      assert Touches(es, q) <==> e == Nap(q) || e == Wake(q) || Touches(es[1..], q) by {
        assert es == [e] + es[1..];
      }
      if LastNapLost(Next(s, e), es[1..], q) {
        LostIsTouched(Next(s, e), es[1..], q);
      }
    }
  }

  lemma {:induction false} LostIsTouched(s: Sched, es: seq<Event>, q: nat)
    requires Consistent(s) && Possible(s, es) && LastNapLost(s, es, q)
    ensures Touches(es, q)
    decreases |es|
  {
    NextConsistent(s, es[0]);
    if LastNapLost(Next(s, es[0]), es[1..], q) {
      LostIsTouched(Next(s, es[0]), es[1..], q);
    }
  }

  lemma LinksNext(s: Sched, e: Event, q: nat)
    requires Consistent(s) && Enabled(s, e) && q < |s.waiting|
    ensures |Next(s, e).waiting| == |s.waiting| && |Next(s, e).links| == |s.links|
    ensures Next(s, e).links[q].SelfLinked? <==>
      (if e == Nap(q) then Loses(s, e) else e != Wake(q) && s.links[q].SelfLinked?)
  {
  }

  /** A wake puts a task into two queues exactly when the last nap or wake on its queue was a losing nap. */
  lemma DoublesExactly(s: Sched, es: seq<Event>, q: nat)
    requires Consistent(s) && Possible(s, es) && NoneLeft(s) && q < |s.waiting| && Enabled(After(s, es), Wake(q))
    ensures var r := After(s, es);
      && (Duplicates(r, Wake(q)) <==> LastNapLost(s, es, q))
      && (LastNapLost(s, es, q) ==>
            var t := r.waiting[q][0];
            && t.priority < NUM_PRIORITY_LEVELS
            && t in Next(r, Wake(q)).ready[t.priority] && Next(r, Wake(q)).waiting[q] == [t])
  {
    LeftExactlyByALosingNap(s, es, q);
    hide LastNapLost, Possible, After;
    var r := After(s, es);
    assert |r.waiting| == |s.waiting|;
    if r.links[q].SelfLinked? {
      assert |r.waiting[q]| == 1 && r.waiting[q] == [r.waiting[q][0]];
    }
  }

  /** A losing run loses a task that it cannot make up for: some task was there, or was started, one time more than it
      is there, has terminated or was doubled. */
  lemma {:induction false} LosingRunDropsATask(s: Sched, es: seq<Event>) returns (id: nat)
    requires Consistent(s) && Possible(s, es) && !NeverLoses(s, es)
    ensures Losses(s, es, id) > 0
    ensures Present(After(s, es), id) + Deaths(s, es, id) < Present(s, id) + Births(s, es, id) + Doubles(s, es, id)
    decreases |es|
  {
    NextConsistent(s, es[0]);
    if Loses(s, es[0]) {
      id := s.waiting[es[0].q][0].id;
    } else {
      id := LosingRunDropsATask(Next(s, es[0]), es[1..]);
    }
    RunConserves(s, es, id);
  }

  /** Every task is in one place at most, and no number is used for a second task. */
  ghost predicate Unique(s: Sched, es: seq<Event>)
    requires Consistent(s) && Possible(s, es)
  {
    forall id :: Present(s, id) + Births(s, es, id) <= 1
  }

  /** A task that is nowhere stays nowhere. */
  lemma {:induction false} NowhereStays(s: Sched, es: seq<Event>, id: nat)
    requires Consistent(s) && Possible(s, es) && Present(s, id) == 0 && Births(s, es, id) == 0
    ensures Present(After(s, es), id) == 0 && Deaths(s, es, id) == 0
    decreases |es|
  {
    if es != [] {
      NextConsistent(s, es[0]);
      NextConserves(s, es[0], id);
      NothingToDouble(s, es[0], id);
      hide Next, Present, Settle;
      NowhereStays(Next(s, es[0]), es[1..], id);
    }
  }

  lemma NothingToDouble(s: Sched, e: Event, id: nat)
    requires Consistent(s) && Enabled(s, e) && Present(s, id) == 0
    ensures Duplicated(s, e, id) == 0
  {
    if Duplicates(s, e) {
      CountInTail(s.waiting[e.q], id);
      CountUpdate(s.waiting, e.q, [], id);
    }
  }

  /** With every task its own number, the first losing nap makes a task disappear that has not terminated. */
  lemma {:induction false} LosingRunForgetsATask(s: Sched, es: seq<Event>) returns (id: nat)
    requires Consistent(s) && Possible(s, es) && !NeverLoses(s, es) && NoneLeft(s) && Unique(s, es)
    ensures Present(s, id) + Births(s, es, id) == 1
    ensures Present(After(s, es), id) == 0 && Deaths(s, es, id) == 0
    decreases |es|
  {
    var e := es[0];
    NextConsistent(s, e);
    var r := Next(s, e);
    if Loses(s, e) {
      id := s.waiting[e.q][0].id;
      NextConserves(s, e, id);
      LostWasPresent(s, e);
      assert Present(s, id) + Births(s, es, id) <= 1;
      hide Next, Present, Settle;
      NowhereStays(r, es[1..], id);
    } else {
      NoneLeftNext(s, e);
      forall i
        ensures Present(r, i) + Births(r, es[1..], i) <= 1
      {
        NextConserves(s, e, i);
        assert Present(s, i) + Births(s, es, i) <= 1;
      }
      id := LosingRunForgetsATask(r, es[1..]);
      NextConserves(s, e, id);
      assert Present(s, id) + Births(s, es, id) <= 1;
    }
  }

  lemma LostWasPresent(s: Sched, e: Event)
    requires Loses(s, e)
    ensures Present(s, s.waiting[e.q][0].id) >= 1
  {
    var id := s.waiting[e.q][0].id;
    CountInTail(s.waiting[e.q], id);
    CountUpdate(s.waiting, e.q, [], id);
  }

  // ---------------------------------------------------------------- inputs that show it

  /** Ready queues with q at level p and nothing else. */
  function OnlyLevel(p: nat, q: seq<Task>): (ready: seq<seq<Task>>)
    ensures |ready| == NUM_PRIORITY_LEVELS
  {
    seq(NUM_PRIORITY_LEVELS, i => if i == p then q else [])
  }

  lemma ElectOnlyLevel(p: nat, q: seq<Task>)
    requires p < NUM_PRIORITY_LEVELS
    ensures Elect(OnlyLevel(p, q), 0) == if q == [] then None else Some(q[0])
  {
    if q == [] {
      ElectSkips(OnlyLevel(p, q), 0, NUM_PRIORITY_LEVELS);
    } else {
      ElectAt(OnlyLevel(p, q), p);
    }
  }

  /** Level p holds q, and an idle task z waits for the processor at its own, less urgent level. */
  function WithIdle(z: Task, p: nat, q: seq<Task>): (ready: seq<seq<Task>>)
    requires p < z.priority < NUM_PRIORITY_LEVELS
    ensures |ready| == NUM_PRIORITY_LEVELS
  {
    OnlyLevel(z.priority, [z])[p := q]
  }

  lemma ElectWithIdle(z: Task, p: nat, q: seq<Task>)
    requires p < z.priority < NUM_PRIORITY_LEVELS
    ensures Elect(WithIdle(z, p, q), 0) == Some(if q == [] then z else q[0])
  {
    ElectAt(WithIdle(z, p, q), if q == [] then z.priority else p);
  }

  lemma WithIdleSet(z: Task, p: nat, p': nat, q: seq<Task>, q': seq<Task>)
    requires p < z.priority < NUM_PRIORITY_LEVELS && p' < z.priority && (q == [] || p == p')
    ensures WithIdle(z, p, q)[p' := q'] == WithIdle(z, p', q') && WithIdle(z, p, [])[p'] == []
  {
  }

  /** The state in which the task manager starts, with one wait queue. */
  function Booted(): Sched {
    Sched(OnlyLevel(0, []), [[]], None, 0, [Proper], true)
  }

  /** The idle task starts, and a task that naps; the idle task starts a more urgent one, which naps on the same
      queue, and wakes the queue. */
  function LosingHistory(z: Task, a: Task, b: Task): seq<Event> {
    [Start(z), Start(a), Nap(0), Start(b), Nap(0), Wake(0)]
  }

  /** One wait queue, the idle task and at most one more task ready. */
  function Few(z: Task, p: nat, ready: seq<Task>, waiting: seq<Task>, l: Links): Sched
    requires p < z.priority < NUM_PRIORITY_LEVELS
  {
    Sched(WithIdle(z, p, ready), [waiting], Some(if ready == [] then z else ready[0]), 0, [l], false)
  }

  lemma FewConsistent(z: Task, p: nat, ready: seq<Task>, waiting: seq<Task>, l: Links)
    requires p < z.priority < NUM_PRIORITY_LEVELS
    requires |ready| <= 1 && |waiting| <= 1 && (!l.Proper? ==> |waiting| == 1)
    requires ready != [] ==> ready[0].priority == p
    requires waiting != [] ==> waiting[0].priority < NUM_PRIORITY_LEVELS
    ensures Consistent(Few(z, p, ready, waiting, l))
  {
    ElectWithIdle(z, p, ready);
  }

  lemma SameFew(z: Task, p: nat, p': nat, waiting: seq<Task>, l: Links)
    requires p < z.priority < NUM_PRIORITY_LEVELS && p' < z.priority
    ensures Few(z, p, [], waiting, l) == Few(z, p', [], waiting, l)
  {
    WithIdleSet(z, p, p', [], []);
    assert WithIdle(z, p, [])[p' := []] == WithIdle(z, p, []);
  }

  lemma StartIdle(z: Task, p: nat)
    requires p < z.priority < NUM_PRIORITY_LEVELS
    ensures Consistent(Booted()) && Enabled(Booted(), Start(z)) && NoneLeft(Booted()) && !Loses(Booted(), Start(z))
    ensures Next(Booted(), Start(z)) == Few(z, p, [], [], Proper)
  {
    ElectOnlyLevel(0, []);
    ElectWithIdle(z, p, []);
    var ready := OnlyLevel(0, [])[z.priority := [z]];
    assert [] + [z] == [z] && ready == WithIdle(z, p, []);
  }

  lemma StartFew(z: Task, t: Task, waiting: seq<Task>, l: Links)
    requires t.priority < z.priority < NUM_PRIORITY_LEVELS && Consistent(Few(z, t.priority, [], waiting, l))
    ensures var s := Few(z, t.priority, [], waiting, l);
      && Enabled(s, Start(t)) && !Loses(s, Start(t))
      && Next(s, Start(t)) == Few(z, t.priority, [t], waiting, l)
  {
    hide Consistent;
    ElectWithIdle(z, t.priority, [t]);
    WithIdleSet(z, t.priority, t.priority, [], [t]);
    assert [] + [t] == [t];
  }

  lemma NapFew(z: Task, t: Task, waiting: seq<Task>, l: Links)
    requires t.priority < z.priority < NUM_PRIORITY_LEVELS && Consistent(Few(z, t.priority, [t], waiting, l))
    requires !l.Shared?
    ensures var s := Few(z, t.priority, [t], waiting, l);
      && Enabled(s, Nap(0)) && (Loses(s, Nap(0)) <==> LosesHead(waiting, l, t))
      && Next(s, Nap(0)) == Few(z, t.priority, [], Joined(waiting, l, t), LinksAfterNap(waiting, l, t))
  {
    hide Consistent;
    ElectWithIdle(z, t.priority, []);
    WithIdleSet(z, t.priority, t.priority, [t], []);
    var s := Few(z, t.priority, [t], waiting, l);
    assert [t][1..] == [] && s.ready[t.priority] == [t];
  }

  lemma WakeFew(z: Task, t: Task)
    requires t.priority < z.priority < NUM_PRIORITY_LEVELS && Consistent(Few(z, t.priority, [], [t], SelfLinked))
    ensures var s := Few(z, t.priority, [], [t], SelfLinked);
      && Enabled(s, Wake(0)) && !Loses(s, Wake(0))
      && Next(s, Wake(0)) == Few(z, t.priority, [t], [t], Shared)
  {
    hide Consistent;
    ElectWithIdle(z, t.priority, [t]);
    WithIdleSet(z, t.priority, t.priority, [], [t]);
    assert [] + [t] == [t];
  }

  /** The states of the history, step by step. */
  lemma LosingSteps(z: Task, a: Task, b: Task)
    requires b.priority < a.priority < z.priority < NUM_PRIORITY_LEVELS
    ensures var p, q := a.priority, b.priority;
      && Consistent(Booted()) && Enabled(Booted(), Start(z)) && NoneLeft(Booted())
      && Next(Booted(), Start(z)) == Few(z, p, [], [], Proper) && Consistent(Few(z, p, [], [], Proper))
    ensures var s, s' := Few(z, a.priority, [], [], Proper), Few(z, a.priority, [a], [], Proper);
      && Consistent(s') && Enabled(s, Start(a)) && Next(s, Start(a)) == s'
    ensures var s, s' := Few(z, a.priority, [a], [], Proper), Few(z, b.priority, [], [a], Proper);
      && Consistent(s') && Enabled(s, Nap(0)) && Next(s, Nap(0)) == s'
    ensures var s, s' := Few(z, b.priority, [], [a], Proper), Few(z, b.priority, [b], [a], Proper);
      && Consistent(s') && Enabled(s, Start(b)) && Next(s, Start(b)) == s'
    ensures var s, s' := Few(z, b.priority, [b], [a], Proper), Few(z, b.priority, [], [b], SelfLinked);
      && Consistent(s') && Enabled(s, Nap(0)) && Loses(s, Nap(0)) && Next(s, Nap(0)) == s'
    ensures var s, s' := Few(z, b.priority, [], [b], SelfLinked), Few(z, b.priority, [b], [b], Shared);
      && Consistent(s') && Enabled(s, Wake(0)) && Next(s, Wake(0)) == s'
  {
    var p, q := a.priority, b.priority;
    assert Joined([], Proper, a) == [a] && LinksAfterNap([], Proper, a) == Proper;
    assert LosesHead([a], Proper, b) && Joined([a], Proper, b) == [b] && LinksAfterNap([a], Proper, b) == SelfLinked;
    hide *;
    FewConsistent(z, p, [], [], Proper);
    FewConsistent(z, p, [a], [], Proper);
    FewConsistent(z, q, [], [a], Proper);
    FewConsistent(z, q, [b], [a], Proper);
    FewConsistent(z, q, [], [b], SelfLinked);
    FewConsistent(z, q, [b], [b], Shared);
    StartIdle(z, p);
    StartFew(z, a, [], Proper);
    NapFew(z, a, [], Proper);
    SameFew(z, p, q, [a], Proper);
    StartFew(z, b, [a], Proper);
    NapFew(z, b, [a], Proper);
    WakeFew(z, b);
  }

  /** From the start, that loses the first task and leaves the second one both ready and waiting. */
  lemma LosingHistoryLoses(z: Task, a: Task, b: Task)
    requires b.priority < a.priority < z.priority < NUM_PRIORITY_LEVELS && a.id != b.id && z.id != a.id && z.id != b.id
    ensures Consistent(Booted()) && Possible(Booted(), LosingHistory(z, a, b))
    ensures !NeverLoses(Booted(), LosingHistory(z, a, b)) && NoneLeft(Booted())
    ensures var r := After(Booted(), LosingHistory(z, a, b));
      && r == Few(z, b.priority, [b], [b], Shared)
      && Present(r, a.id) == 0 && Present(r, b.id) == 2
  {
    hide *;
    LosingSteps(z, a, b);
    var p, q := a.priority, b.priority;
    var e6: seq<Event> := [];
    Nothing(Few(z, q, [b], [b], Shared));
    Prepend(Few(z, q, [], [b], SelfLinked), Wake(0), e6);
    var e5 := [Wake(0)] + e6;
    Prepend(Few(z, q, [b], [a], Proper), Nap(0), e5);
    var e4 := [Nap(0)] + e5;
    Prepend(Few(z, q, [], [a], Proper), Start(b), e4);
    var e3 := [Start(b)] + e4;
    Prepend(Few(z, p, [a], [], Proper), Nap(0), e3);
    var e2 := [Nap(0)] + e3;
    Prepend(Few(z, p, [], [], Proper), Start(a), e2);
    var e1 := [Start(a)] + e2;
    Prepend(Booted(), Start(z), e1);
    HistoryIs(z, a, b);
    PresentFew(z, b, a.id);
    PresentFew(z, b, b.id);
  }

  lemma Nothing(s: Sched)
    requires Consistent(s)
    ensures Possible(s, []) && After(s, []) == s
  {
  }

  lemma HistoryIs(z: Task, a: Task, b: Task)
    ensures LosingHistory(z, a, b)
            == [Start(z)] + ([Start(a)] + ([Nap(0)] + ([Start(b)] + ([Nap(0)] + ([Wake(0)] + [])))))
  {
  }

  lemma Prepend(s: Sched, e: Event, es: seq<Event>)
    requires Consistent(s) && Enabled(s, e) && Consistent(Next(s, e)) && Possible(Next(s, e), es)
    ensures Possible(s, [e] + es) && After(s, [e] + es) == After(Next(s, e), es)
    ensures NeverLoses(s, [e] + es) <==> !Loses(s, e) && NeverLoses(Next(s, e), es)
  {
    hide Consistent, Next, Enabled, Loses;
    assert ([e] + es)[1..] == es;
  }

  lemma PresentFew(z: Task, t: Task, id: nat)
    requires t.priority < z.priority < NUM_PRIORITY_LEVELS && id != z.id
    ensures Present(Few(z, t.priority, [t], [t], Shared), id) == if t.id == id then 2 else 0
  {
    CountOnlyLevel(z.priority, [z], id);
    CountUpdate(OnlyLevel(z.priority, [z]), t.priority, [t], id);
    assert [t][1..] == [] && [[t]][1..] == [] && [z][1..] == [];
    assert CountIn([t], id) == One(t, id) && CountIn([z], id) == 0 && CountIn([], id) == 0;
    assert Count([[t]], id) == CountIn([t], id) + Count([], id);
  }

  lemma CountOnlyLevel(p: nat, q: seq<Task>, id: nat)
    requires p < NUM_PRIORITY_LEVELS
    ensures Count(OnlyLevel(p, q), id) == CountIn(q, id)
  {
    var none := OnlyLevel(p, []);
    CountNothing(none, id);
    assert none[p := q] == OnlyLevel(p, q);
    CountUpdate(none, p, q, id);
  }

  lemma {:induction false} CountNothing(qs: seq<seq<Task>>, id: nat)
    requires forall i :: 0 <= i < |qs| ==> qs[i] == []
    ensures Count(qs, id) == 0
  {
    if qs != [] {
      CountNothing(qs[1..], id);
    }
  }

  // ---------------------------------------------------------------- time sharing

  /** One time slice: the timer interrupt with its tick, and nothing else. */
  function Slice(s: Sched): Sched
    requires Consistent(s) && s.depth == 0
  {
    var s1 := Next(s, IrqEnter);
    var p := if s.running.Some? then s.running.value.priority else 0;
    var ready := if s.running.Some? && s.running.value.timeshare then s.ready[p := Rotated(s.ready[p])] else s.ready;
    Sched(ready, s.waiting, Elect(ready, 0), 0, s.links, s.booting)
  }

  /** A slice is the three events. */
  lemma SliceIsThreeEvents(s: Sched)
    requires Consistent(s) && s.depth == 0
    ensures var s1 := Next(s, IrqEnter);
      && Consistent(s1) && Enabled(s1, Tick)
      && (NextConsistent(s1, Tick); Consistent(Next(s1, Tick)) && Enabled(Next(s1, Tick), IrqExit))
      && Next(Next(s1, Tick), IrqExit) == Slice(s)
    ensures Consistent(Slice(s)) && Slice(s).depth == 0
  {
    var s1 := Next(s, IrqEnter);
    NextConsistent(s, IrqEnter);
    NextConsistent(s1, Tick);
    NextConsistent(Next(s1, Tick), IrqExit);
  }

  function Slices(s: Sched, n: nat): (r: Sched)
    requires Consistent(s) && s.depth == 0
    ensures Consistent(r) && r.depth == 0
  {
    if n == 0 then s else
      SliceIsThreeEvents(Slices(s, n - 1));
      Slice(Slices(s, n - 1))
  }

  ghost predicate AllShare(q: seq<Task>) {
    forall t <- q :: t.timeshare
  }

  lemma RotationStep(q: seq<Task>, n: nat)
    requires 0 < n <= |q|
    ensures (q[n - 1..] + q[..n - 1])[0] == q[n - 1] && q[n - 1] in q
    ensures Rotated(q[n - 1..] + q[..n - 1]) == q[n..] + q[..n]
    ensures (q[n..] + q[..n])[0] == q[if n == |q| then 0 else n]
    ensures n == |q| ==> q[n..] + q[..n] == q
  {
    var now, next := q[n - 1..] + q[..n - 1], q[n..] + q[..n];
    assert |now| == |q| && now[0] == q[n - 1];
    if |q| > 1 {
      assert now[1..] + [now[0]] == next by {
        assert now[1..] == q[n..] + q[..n - 1];
        assert q[..n] == q[..n - 1] + [q[n - 1]];
      }
    } else {
      assert n == 1 && now == q && next == q;
    }
  }

  lemma SliceRotates(s: Sched)
    requires Consistent(s) && s.depth == 0 && s.running.Some? && s.running.value.timeshare
    ensures var p := s.running.value.priority; var q := s.ready[p];
      && q != [] && q[0] == s.running.value
      && Slice(s).ready == s.ready[p := Rotated(q)]
      && Slice(s).running == Some(Rotated(q)[0])
  {
    RunningIsMostUrgent(s);
    ElectAt(Slice(s).ready, s.running.value.priority);
  }

  /** With k sharing tasks ready at the running level and no other event, the next k slices run them one after the
      other, in queue order, and then everything is as it was; so any k consecutive slices run each exactly once. */
  lemma {:induction false} RoundRobin(s: Sched, n: nat)
    requires Consistent(s) && s.depth == 0 && s.running.Some?
    requires AllShare(s.ready[s.running.value.priority]) && n <= |s.ready[s.running.value.priority]|
    ensures var p := s.running.value.priority; var q := s.ready[p];
      && Slices(s, n).ready == s.ready[p := q[n..] + q[..n]]
      && Slices(s, n).running == Some(q[if n == |q| then 0 else n])
      && (n == |q| ==> Slices(s, n) == s)
  {
    RunningPlace(s);
    SameLevel(s);
    hide Consistent, Rotated, Elect, Slice, AllShare, AllAt, Next, Enabled;
    var p := s.running.value.priority;
    var q := s.ready[p];
    if n == 0 {
      assert q[0..] + q[..0] == q && s.ready[p := q] == s.ready;
    } else {
      RoundRobin(s, n - 1);
      SlicesKeepRest(s, n);
      RoundStep(s, p, q, n, Slices(s, n - 1));
    }
  }

  ghost predicate AllAt(q: seq<Task>, p: nat) {
    forall t <- q :: t.priority == p
  }

  lemma SameLevel(s: Sched)
    requires Consistent(s) && s.running.Some?
    ensures AllAt(s.ready[s.running.value.priority], s.running.value.priority)
  {
  }

  lemma RoundStep(s: Sched, p: nat, q: seq<Task>, n: nat, r: Sched)
    requires p < |s.ready| && q == s.ready[p] && 0 < n <= |q| && AllAt(q, p) && AllShare(q)
    requires Consistent(r) && r.depth == 0
    requires r.ready == s.ready[p := q[n - 1..] + q[..n - 1]] && r.running == Some(q[n - 1])
    ensures Slice(r).ready == s.ready[p := q[n..] + q[..n]]
    ensures Slice(r).running == Some(q[if n == |q| then 0 else n])
    ensures n == |q| ==> Slice(r).ready == s.ready
  {
    hide Consistent, Rotated, Elect, Slice;
    RotationStep(q, n);
    SliceRotates(r);
    assert r.ready[p := q[n..] + q[..n]] == s.ready[p := q[n..] + q[..n]];
    assert n == |q| ==> s.ready[p := q] == s.ready;
  }

  lemma {:induction false} SlicesKeepRest(s: Sched, n: nat)
    requires Consistent(s) && s.depth == 0
    ensures Slices(s, n).waiting == s.waiting && Slices(s, n).links == s.links && Slices(s, n).booting == s.booting
  {
    if n > 0 {
      SlicesKeepRest(s, n - 1);
    }
  }

  /** The file's header asks that time sharing waits until every runnable task of the level shares; the handler only
      asks the running task.  A slice goes against that exactly when a sharing task runs in mixed company. */
  lemma SharingAsDocumented(s: Sched)
    requires Consistent(s) && s.depth == 0 && s.running.Some?
    requires var q := s.ready[s.running.value.priority]; |q| > 1 ==> q[0] != q[1]
    ensures var q := s.ready[s.running.value.priority];
      (Slice(s).running != s.running ==> AllShare(q)) <==> !(s.running.value.timeshare && !AllShare(q))
  {
    var p := s.running.value.priority;
    RunningIsMostUrgent(s);
    var q := s.ready[p];
    if s.running.value.timeshare {
      ElectAt(Slice(s).ready, p);
      assert |q| == 1 ==> AllShare(q);
    }
  }

  /** It does so when a task that shares heads a level with one that does not. */
  lemma MixedCompany(a: Task, b: Task)
    requires a.priority == b.priority < NUM_PRIORITY_LEVELS && a.timeshare && !b.timeshare
    ensures var s := Sched(OnlyLevel(a.priority, [a, b]), [], Some(a), 0, [], false);
      && Consistent(s)
      && Slice(s).running == Some(b)
      && !(Slice(s).running != s.running ==> AllShare(s.ready[a.priority]))
  {
    var p, q := a.priority, [a, b];
    ElectOnlyLevel(p, q);
    ElectOnlyLevel(p, [b, a]);
    var s := Sched(OnlyLevel(p, q), [], Some(a), 0, [], false);
    assert Rotated(q) == [b, a] && s.ready[p := [b, a]] == OnlyLevel(p, [b, a]);
    assert b in q;
  }
}
