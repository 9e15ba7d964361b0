/** The order in which the task queues of virgoos/src/base/taskman.c:144-265 are meant to serve their tasks, and what
    the code makes of it, on values.  TaskQueues proves that the linked queues do the second; SchedulerModel builds
    the task manager on it. */
module TaskOrder {
  /** A task as the scheduler sees it: smaller priority numbers are more urgent. */
  datatype Task = Task(id: nat, priority: nat, timeshare: bool)

  /** Index before which a task of priority p goes in a mixed-priority queue: the first less urgent task. */
  function Place(keys: seq<nat>, p: nat): (k: nat)
    ensures k <= |keys|
    ensures k < |keys| ==> p < keys[k]
    ensures forall i :: 0 <= i < k ==> keys[i] <= p
  {
    if keys == [] || p < keys[0] then 0 else 1 + Place(keys[1..], p)
  }

  function Keys(ts: seq<Task>): (keys: seq<nat>)
    ensures |keys| == |ts|
    ensures forall i :: 0 <= i < |ts| ==> keys[i] == ts[i].priority
  {
    seq(|ts|, i requires 0 <= i < |ts| => ts[i].priority)
  }

  function InsertAt<T>(s: seq<T>, k: nat, x: T): seq<T>
    requires k <= |s|
  {
    s[..k] + [x] + s[k..]
  }

  lemma InsertAtAt<T>(s: seq<T>, k: nat, x: T)
    requires k <= |s|
    ensures |InsertAt(s, k, x)| == |s| + 1
    ensures forall i :: 0 <= i <= |s| ==> InsertAt(s, k, x)[i] == if i < k then s[i] else if i == k then x else s[i - 1]
  {
  }

  /** enqueue_task on a queue: sorted insertion in a mixed-priority queue, otherwise append. */
  function Enqueued(ts: seq<Task>, mixed: bool, t: Task): seq<Task> {
    if mixed then InsertAt(ts, Place(Keys(ts), t.priority), t) else ts + [t]
  }

  ghost predicate Sorted(ts: seq<Task>) {
    forall i, j :: 0 <= i < j < |ts| ==> ts[i].priority <= ts[j].priority
  }

  /** The tasks of priority p, in queue order. */
  function OfPriority(ts: seq<Task>, p: nat): seq<Task> {
    if ts == [] then []
    else if ts[0].priority == p then [ts[0]] + OfPriority(ts[1..], p)
    else OfPriority(ts[1..], p)
  }

  lemma {:induction false} OfPriorityConcat(a: seq<Task>, b: seq<Task>, p: nat)
    ensures OfPriority(a + b, p) == OfPriority(a, p) + OfPriority(b, p)
  {
    if a == [] {
      assert a + b == b;
    } else {
      assert (a + b)[1..] == a[1..] + b;
      OfPriorityConcat(a[1..], b, p);
    }
  }

  lemma {:induction false} NoneOfPriority(ts: seq<Task>, p: nat)
    requires forall t <- ts :: t.priority != p
    ensures OfPriority(ts, p) == []
  {
    if ts != [] {
      assert ts[0] in ts;
      assert forall t <- ts[1..] :: t in ts;
      NoneOfPriority(ts[1..], p);
    }
  }

  /** A mixed-priority enqueue keeps the queue sorted. */
  lemma EnqueuedSorted(ts: seq<Task>, t: Task)
    requires Sorted(ts)
    ensures Sorted(Enqueued(ts, true, t))
  {
    var keys := Keys(ts);
    var k := Place(keys, t.priority);
    assert forall i :: 0 <= i < k ==> ts[i].priority == keys[i] <= t.priority;
    assert k < |ts| ==> t.priority < keys[k] == ts[k].priority;
    SortedInsertion(ts, k, t);
  }

  lemma SortedInsertion(ts: seq<Task>, k: nat, t: Task)
    requires Sorted(ts) && k <= |ts|
    requires (forall i :: 0 <= i < k ==> ts[i].priority <= t.priority) && (k < |ts| ==> t.priority <= ts[k].priority)
    ensures Sorted(InsertAt(ts, k, t))
  {
    InsertAtAt(ts, k, t);
    var r := InsertAt(ts, k, t);
    hide InsertAt;
    forall i, j | 0 <= i < j < |r|
      ensures r[i].priority <= r[j].priority
    {
      assert k < j ==> ts[k].priority <= ts[j - 1].priority;
    }
  }

  /** Either enqueue puts the task behind all others of its priority and leaves the order within every priority
      alone. */
  lemma EnqueuedStable(ts: seq<Task>, mixed: bool, t: Task, p: nat)
    requires mixed ==> Sorted(ts)
    ensures OfPriority(Enqueued(ts, mixed, t), p) == OfPriority(ts, p) + if t.priority == p then [t] else []
  {
    hide OfPriority;
    SingleOfPriority(t, p);
    if mixed {
      var k := Place(Keys(ts), t.priority);
      var a, b := ts[..k], ts[k..];
      assert ts == a + b;
      OfPriorityConcat(a, b, p);
      OfPriorityConcat(a + [t], b, p);
      OfPriorityConcat(a, [t], p);
      if t.priority == p {
        forall u <- b
          ensures u.priority != p
        {
          var i :| 0 <= i < |b| && b[i] == u;
          assert b[i] == ts[k + i];
        }
        NoneOfPriority(b, p);
      }
    } else {
      OfPriorityConcat(ts, [t], p);
    }
  }

  lemma SingleOfPriority(t: Task, p: nat)
    ensures OfPriority([t], p) == if t.priority == p then [t] else []
  {
    assert [t][1..] == [];
  }

  // ---------------------------------------------------------------- what a queue has served

  datatype Op = Enqueue(t: Task) | Dequeue

  /** A queue together with the tasks it was given and the tasks it gave out so far. */
  datatype History = History(queue: seq<Task>, arrived: seq<Task>, served: seq<Task>)

  function Step(h: History, mixed: bool, op: Op): History {
    match op
    case Enqueue(t) => h.(queue := Enqueued(h.queue, mixed, t), arrived := h.arrived + [t])
    case Dequeue =>
      if h.queue == [] then h else h.(queue := h.queue[1..], served := h.served + [h.queue[0]])
  }

  function Run(h: History, mixed: bool, ops: seq<Op>): History {
    if ops == [] then h else Step(Run(h, mixed, ops[..|ops| - 1]), mixed, ops[|ops| - 1])
  }

  /** By the intended insertion, after any sequence of enqueues and dequeues the tasks of each priority have been
      served in the order in which they arrived, and those not yet served still wait in that order. */
  lemma {:induction false} FirstInFirstOut(mixed: bool, ops: seq<Op>, p: nat)
    ensures var h := Run(History([], [], []), mixed, ops);
      && OfPriority(h.served, p) + OfPriority(h.queue, p) == OfPriority(h.arrived, p)
      && (mixed ==> Sorted(h.queue))
  {
    if ops != [] {
      var h0 := Run(History([], [], []), mixed, ops[..|ops| - 1]);
      var op := ops[|ops| - 1];
      FirstInFirstOut(mixed, ops[..|ops| - 1], p);
      match op {
        case Enqueue(t) =>
          EnqueuedStable(h0.queue, mixed, t, p);
          OfPriorityConcat(h0.arrived, [t], p);
          SingleOfPriority(t, p);
          if mixed {
            EnqueuedSorted(h0.queue, t);
          }
        case Dequeue =>
          if h0.queue != [] {
            var t := h0.queue[0];
            assert h0.queue == [t] + h0.queue[1..];
            OfPriorityConcat([t], h0.queue[1..], p);
            OfPriorityConcat(h0.served, [t], p);
          }
      }
    }
  }

  /** By the intended insertion, what a mixed-priority queue serves next is a most urgent task. */
  lemma ServesMostUrgent(mixed: bool, ops: seq<Op>, t: Task)
    requires mixed && t in Run(History([], [], []), mixed, ops).queue
    ensures Run(History([], [], []), mixed, ops).queue[0].priority <= t.priority
  {
    FirstInFirstOut(mixed, ops, 0);
    var q := Run(History([], [], []), mixed, ops).queue;
    var i :| 0 <= i < |q| && q[i] == t;
  }

  // ---------------------------------------------------------------- the queue as the code has it

  /** How a queue is linked.  SelfLinked: a losing enqueue has left it with one task that is linked to itself.
      Shared: a dequeue has then handed that task out and left it as the head, and it has joined another queue, into
      which the head pointer of this one leads. */
  datatype Links = Proper | SelfLinked | Shared

  /** A more urgent task joins a properly linked mixed-priority queue of one: enqueue_task loses the task that waits
      there.  On a self-linked queue of one it does not. */
  predicate LosesHead(q: seq<Task>, l: Links, t: Task) {
    l.Proper? && |q| == 1 && t.priority < q[0].priority
  }

  /** What can still be reached in a mixed-priority queue after an enqueue, and how it is linked then. */
  function Joined(q: seq<Task>, l: Links, t: Task): seq<Task> {
    if LosesHead(q, l, t) then [t] else Enqueued(q, true, t)
  }

  function LinksAfterNap(q: seq<Task>, l: Links, t: Task): Links {
    if LosesHead(q, l, t) then SelfLinked else Proper
  }

  lemma JoinedElements(q: seq<Task>, l: Links, t: Task)
    ensures forall i :: 0 <= i < |Joined(q, l, t)| ==> Joined(q, l, t)[i] == t || Joined(q, l, t)[i] in q
    ensures LosesHead(q, l, t) ==> |Joined(q, l, t)| == 1
  {
  }

  /** What a queue holds after its head has been taken: a self-linked queue keeps it. */
  function Left(q: seq<Task>, l: Links): seq<Task>
    requires q != []
  {
    if l.SelfLinked? then q else q[1..]
  }

  function LinksAfterWake(l: Links): Links {
    if l.SelfLinked? then Shared else l
  }

  /** A queue with its links; whether it is a mixed-priority one stands in its tasks, and is false without any. */
  datatype Chain = Chain(tasks: seq<Task>, links: Links, mixed: bool)

  const NOTHING := Chain([], Proper, false)

  /** enqueue_task; `mixed` is what stands in the task, which counts for the first one. */
  function AfterEnqueue(q: Chain, t: Task, mixed: bool): Chain {
    if q.tasks == [] then Chain([t], Proper, mixed)
    else if q.mixed then Chain(Joined(q.tasks, q.links, t), LinksAfterNap(q.tasks, q.links, t), true)
    else Chain(q.tasks + [t], Proper, false)
  }

  /** dequeue_task: it clears the flags of the task it hands out, which a self-linked queue keeps. */
  function AfterDequeue(q: Chain): Chain {
    if q.tasks == [] then q
    else if q.links.SelfLinked? then Chain(q.tasks, Proper, false)
    else Chain(q.tasks[1..], Proper, q.mixed && |q.tasks| > 1)
  }

  /** A queue of the code with the tasks it was given and the tasks it gave out so far. */
  datatype Record = Record(queue: Chain, arrived: seq<Task>, served: seq<Task>)

  function WrittenStep(h: Record, mixed: bool, op: Op): Record {
    match op
    case Enqueue(t) => h.(queue := AfterEnqueue(h.queue, t, mixed), arrived := h.arrived + [t])
    case Dequeue =>
      if h.queue.tasks == [] then h else h.(queue := AfterDequeue(h.queue), served := h.served + [h.queue.tasks[0]])
  }

  function WrittenRun(mixed: bool, ops: seq<Op>): Record {
    if ops == [] then Record(NOTHING, [], [])
    else WrittenStep(WrittenRun(mixed, ops[..|ops| - 1]), mixed, ops[|ops| - 1])
  }

  /** A more urgent task joins a properly linked mixed-priority queue of one. */
  predicate Losing(h: Record, op: Op) {
    op.Enqueue? && h.queue.mixed && LosesHead(h.queue.tasks, h.queue.links, op.t)
  }

  predicate NeverLosing(mixed: bool, ops: seq<Op>) {
    ops == [] ||
    (NeverLosing(mixed, ops[..|ops| - 1]) && !Losing(WrittenRun(mixed, ops[..|ops| - 1]), ops[|ops| - 1]))
  }

  /** Without a losing enqueue the code does what was intended. */
  lemma {:induction false} NeverLosingIsIntended(mixed: bool, ops: seq<Op>)
    requires NeverLosing(mixed, ops)
    ensures var h, w := Run(History([], [], []), mixed, ops), WrittenRun(mixed, ops);
      && w.arrived == h.arrived && w.served == h.served
      && w.queue == Chain(h.queue, Proper, mixed && h.queue != [])
  {
    if ops != [] {
      NeverLosingIsIntended(mixed, ops[..|ops| - 1]);
      FirstPlace();
    }
  }

  lemma FirstPlace()
    ensures forall t: Task, mixed :: Enqueued([], mixed, t) == [t]
  {
  }

  predicate DistinctIds(ts: seq<Task>) {
    forall i, j :: 0 <= i < j < |ts| ==> ts[i].id != ts[j].id
  }

  lemma {:induction false} InOfPriority(ts: seq<Task>, t: Task)
    ensures t in OfPriority(ts, t.priority) <==> t in ts
  {
    if ts != [] {
      assert ts == [ts[0]] + ts[1..];
      InOfPriority(ts[1..], t);
    }
  }

  /** A task has arrived, has not been served and is not in the queue. */
  predicate Gone(h: Record, t: Task) {
    t in h.arrived && t !in h.served && t !in h.queue.tasks
  }

  /** What holds of every queue that is given each task once: it holds what arrived, each once, and, as long as it is a
      mixed-priority one, nothing that was served. */
  predicate Kept(h: Record) {
    && (forall t <- h.queue.tasks :: t in h.arrived) && (forall t <- h.served :: t in h.arrived)
    && DistinctIds(h.queue.tasks)
    && (h.queue.mixed ==> forall t <- h.queue.tasks :: t !in h.served)
  }

  lemma NewIsNew(ts: seq<Task>, t: Task)
    requires DistinctIds(ts + [t])
    ensures DistinctIds(ts) && forall u <- ts :: u.id != t.id
  {
    var r := ts + [t];
    forall u <- ts
      ensures u.id != t.id
    {
      var i :| 0 <= i < |ts| && ts[i] == u;
      assert r[i] == u && r[|ts|] == t;
    }
    assert forall i :: 0 <= i < |ts| ==> r[i] == ts[i];
  }

  lemma InsertDistinct(ts: seq<Task>, k: nat, t: Task)
    requires DistinctIds(ts) && k <= |ts| && forall u <- ts :: u.id != t.id
    ensures DistinctIds(InsertAt(ts, k, t)) && forall u :: u in InsertAt(ts, k, t) <==> u == t || u in ts
  {
    var r := InsertAt(ts, k, t);
    InsertAtAt(ts, k, t);
    forall u
      ensures u in r <==> u == t || u in ts
    {
      if u in ts {
        var i :| 0 <= i < |ts| && ts[i] == u;
        assert r[if i < k then i else i + 1] == u;
      }
      assert r[k] == t;
    }
  }

  lemma EnqueueKeeps(h: Record, mixed: bool, t: Task)
    requires Kept(h) && forall u <- h.arrived :: u.id != t.id
    ensures Kept(WrittenStep(h, mixed, Enqueue(t)))
    ensures forall u :: Gone(h, u) ==> Gone(WrittenStep(h, mixed, Enqueue(t)), u)
    ensures Losing(h, Enqueue(t)) ==> Gone(WrittenStep(h, mixed, Enqueue(t)), h.queue.tasks[0])
  {
    var q := h.queue.tasks;
    if q != [] {
      InsertDistinct(q, Place(Keys(q), t.priority), t);
      InsertDistinct(q, |q|, t);
      assert InsertAt(q, |q|, t) == q + [t];
      hide Place, Keys, InsertAt;
    }
  }

  lemma DequeueKeeps(h: Record, mixed: bool)
    requires Kept(h)
    ensures Kept(WrittenStep(h, mixed, Dequeue))
    ensures forall u :: Gone(h, u) ==> Gone(WrittenStep(h, mixed, Dequeue), u)
  {
    var q := h.queue.tasks;
    if q != [] {
      assert q[0] in q && forall i :: 0 <= i < |q| - 1 ==> q[1..][i] == q[i + 1];
    }
  }

  /** A task that a losing enqueue has cut off is never served. */
  lemma {:induction false} LosingLoses(mixed: bool, ops: seq<Op>)
    requires DistinctIds(WrittenRun(mixed, ops).arrived)
    ensures Kept(WrittenRun(mixed, ops))
    ensures !NeverLosing(mixed, ops) ==> exists t :: Gone(WrittenRun(mixed, ops), t)
  {
    if ops != [] {
      var before, op := ops[..|ops| - 1], ops[|ops| - 1];
      var h, h' := WrittenRun(mixed, before), WrittenRun(mixed, ops);
      assert h' == WrittenStep(h, mixed, op);
      hide Kept, Gone, Losing;
      match op {
        case Enqueue(t) =>
          NewIsNew(h.arrived, t);
          LosingLoses(mixed, before);
          EnqueueKeeps(h, mixed, t);
        case Dequeue =>
          LosingLoses(mixed, before);
          DequeueKeeps(h, mixed);
          NoLosingDequeue(h);
      }
    }
  }

  lemma NoLosingDequeue(h: Record)
    ensures !Losing(h, Dequeue)
  {
  }

  /** The code serves the tasks of each priority in the order of their arrival, and forgets none, exactly as long as no
      enqueue is a losing one. */
  lemma ServedInOrderExactly(mixed: bool, ops: seq<Op>)
    requires DistinctIds(WrittenRun(mixed, ops).arrived)
    ensures var h := WrittenRun(mixed, ops);
      NeverLosing(mixed, ops) <==>
      forall p: nat :: OfPriority(h.served, p) + OfPriority(h.queue.tasks, p) == OfPriority(h.arrived, p)
  {
    hide OfPriority, WrittenRun, NeverLosing, DistinctIds, Run;
    var h := WrittenRun(mixed, ops);
    if NeverLosing(mixed, ops) {
      NeverLosingIsIntended(mixed, ops);
      forall p: nat
        ensures OfPriority(h.served, p) + OfPriority(h.queue.tasks, p) == OfPriority(h.arrived, p)
      {
        FirstInFirstOut(mixed, ops, p);
      }
    } else {
      LosingLoses(mixed, ops);
      var t :| Gone(h, t);
      InOfPriority(h.arrived, t);
      InOfPriority(h.served, t);
      InOfPriority(h.queue.tasks, t);
      assert t !in OfPriority(h.served, t.priority) + OfPriority(h.queue.tasks, t.priority);
    }
  }

  /** As long as that is so, a mixed-priority queue serves a most urgent task next. */
  lemma CodeServesMostUrgent(mixed: bool, ops: seq<Op>, t: Task)
    requires mixed && NeverLosing(mixed, ops) && t in WrittenRun(mixed, ops).queue.tasks
    ensures WrittenRun(mixed, ops).queue.tasks[0].priority <= t.priority
  {
    NeverLosingIsIntended(mixed, ops);
    ServesMostUrgent(mixed, ops, t);
  }

  /** An enqueue that loses nothing is an insertion. */
  lemma EnqueueInserts(q: Chain, t: Task, mixed: bool)
    requires q.tasks != [] && !(q.mixed && LosesHead(q.tasks, q.links, t))
    ensures var k := if q.mixed then Place(Keys(q.tasks), t.priority) else |q.tasks|;
      AfterEnqueue(q, t, mixed) == Chain(InsertAt(q.tasks, k, t), Proper, q.mixed)
  {
    assert InsertAt(q.tasks, |q.tasks|, t) == q.tasks + [t];
  }

  lemma RunAppend(mixed: bool, ops: seq<Op>, op: Op)
    ensures WrittenRun(mixed, ops + [op]) == WrittenStep(WrittenRun(mixed, ops), mixed, op)
    ensures var none := History([], [], []); Run(none, mixed, ops + [op]) == Step(Run(none, mixed, ops), mixed, op)
  {
    assert (ops + [op])[..|ops|] == ops;
  }

  /** Two enqueues and three dequeues after which the code has served one task twice and the other not at all. */
  lemma LosingQueue(a: Task, b: Task)
    requires b.priority < a.priority
    ensures var ops := [Enqueue(a), Enqueue(b), Dequeue, Dequeue, Dequeue];
      && WrittenRun(true, ops) == Record(NOTHING, [a, b], [b, b])
      && Run(History([], [], []), true, ops) == History([], [a, b], [b, a])
  {
    var o0: seq<Op> := [];
    var o1 := o0 + [Enqueue(a)];
    var o2 := o1 + [Enqueue(b)];
    var o3 := o2 + [Dequeue];
    var o4 := o3 + [Dequeue];
    assert [Enqueue(a), Enqueue(b), Dequeue, Dequeue, Dequeue] == o4 + [Dequeue];
    assert WrittenRun(true, o0) == Record(NOTHING, [], []) && Run(History([], [], []), true, o0) == History([], [], []);
    FirstPlace();
    LosingEnqueue(a, b);
    hide WrittenRun, Run, Enqueued;
    RunAppend(true, o0, Enqueue(a));
    RunAppend(true, o1, Enqueue(b));
    RunAppend(true, o2, Dequeue);
    RunAppend(true, o3, Dequeue);
    RunAppend(true, o4, Dequeue);
  }

  lemma LosingEnqueue(a: Task, b: Task)
    requires b.priority < a.priority
    ensures AfterEnqueue(Chain([a], Proper, true), b, true) == Chain([b], SelfLinked, true)
    ensures Enqueued([a], true, b) == [b, a]
  {
  }
}
