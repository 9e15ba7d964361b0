/** The task queues of virgoos/src/base/taskman.c:144-265: cyclic doubly linked lists whose links are NULL while there
    is a single element. */
module TaskQueues {
  import opened TaskOrder

  /** TASK_Q: a task with its links; id stands for its address.  `timeshare` is the bit of its options, `nonSystem` and
      `mixedPrio` are the two bits of queue_flags. */
  class TaskQ {
    const id: nat
    var priority: nat
    var timeshare: bool
    var nonSystem: bool
    var mixedPrio: bool
    var next: TaskQ?
    var prev: TaskQ?
    var parent: Queue?

    /** The task as TaskOrder has it. */
    ghost function Image(): Task
      reads this`priority, this`timeshare
    {
      Task(id, priority, timeshare)
    }
  }

  ghost function Images(ts: seq<TaskQ>): (r: seq<Task>)
    reads ts`priority, ts`timeshare
    ensures |r| == |ts|
  {
    if ts == [] then [] else [ts[0].Image()] + Images(ts[1..])
  }

  lemma {:induction false} ImagesAt(ts: seq<TaskQ>, i: nat)
    requires i < |ts|
    ensures Images(ts)[i] == ts[i].Image()
  {
    if i > 0 {
      ImagesAt(ts[1..], i - 1);
    }
  }

  lemma {:induction false} ImagesConcat(a: seq<TaskQ>, b: seq<TaskQ>)
    ensures Images(a + b) == Images(a) + Images(b)
  {
    if a == [] {
      assert a + b == b;
    } else {
      assert (a + b)[1..] == a[1..] + b;
      ImagesConcat(a[1..], b);
    }
  }

  lemma ImagesInsert(ts: seq<TaskQ>, k: nat, t: TaskQ)
    requires k <= |ts|
    ensures Images(InsertAt(ts, k, t)) == InsertAt(Images(ts), k, t.Image())
  {
    var a, c := ts[..k], ts[k..];
    assert Images([t]) == [t.Image()];
    assert ts == a + c;
    hide Images;
    ImagesConcat(a, c);
    ImagesConcat(a, [t]);
    ImagesConcat(a + [t], c);
  }

  ghost predicate Distinct(ts: seq<TaskQ>) {
    forall i, j :: 0 <= i < j < |ts| ==> ts[i] != ts[j]
  }

  lemma DistinctInsert(ts: seq<TaskQ>, k: nat, t: TaskQ)
    requires Distinct(ts) && t !in ts && k <= |ts|
    ensures Distinct(InsertAt(ts, k, t))
    ensures forall j :: 0 <= j <= |ts| ==>
      InsertAt(ts, k, t)[j] == if j < k then ts[j] else if j == k then t else ts[j - 1]
  {
  }

  /** Neighbours around the cycle. */
  ghost predicate LinkedIn(ts: seq<TaskQ>, i: nat)
    requires i < |ts|
    reads ts`next, ts`prev
  {
    && ts[i].next == ts[if i + 1 == |ts| then 0 else i + 1]
    && ts[i].prev == ts[if i == 0 then |ts| - 1 else i - 1]
  }

  ghost predicate Cycle(ts: seq<TaskQ>)
    reads ts`next, ts`prev
  {
    forall i :: 0 <= i < |ts| ==> LinkedIn(ts, i)
  }

  /** The cycle ts with t linked in before ts[k]. */
  ghost predicate CycleWith(ts: seq<TaskQ>, k: nat, t: TaskQ)
    requires 0 < k < |ts|
    reads ts`next, ts`prev, t`next, t`prev
  {
    && t.next == ts[k] && t.prev == ts[k - 1]
    && forall j :: 0 <= j < |ts| ==>
         && ts[j].next == (if j == k - 1 then t else ts[if j + 1 == |ts| then 0 else j + 1])
         && ts[j].prev == (if j == k then t else ts[if j == 0 then |ts| - 1 else j - 1])
  }

  lemma InsertedLinked(ts: seq<TaskQ>, k: nat, t: TaskQ)
    requires 0 < k < |ts| && CycleWith(ts, k, t)
    ensures Cycle(InsertAt(ts, k, t))
  {
    var r := InsertAt(ts, k, t);
    forall j | 0 <= j < |r|
      ensures LinkedIn(r, j)
    {
      if j != k {
        assert r[j] == ts[if j < k then j else j - 1];
      }
    }
  }

  ghost predicate FlagsAgree(ts: seq<TaskQ>)
    reads ts`mixedPrio, ts`nonSystem
  {
    forall i :: 0 <= i < |ts| ==> ts[i].mixedPrio == ts[0].mixedPrio && ts[i].nonSystem == ts[0].nonSystem
  }

  lemma FlagsInsert(ts: seq<TaskQ>, k: nat, t: TaskQ)
    requires FlagsAgree(ts) && 0 < |ts| && k <= |ts|
    requires t.mixedPrio == ts[0].mixedPrio && t.nonSystem == ts[0].nonSystem
    ensures FlagsAgree(InsertAt(ts, k, t))
  {
    var r := InsertAt(ts, k, t);
    assert forall i :: 0 <= i < |r| ==> r[i] == if i < k then ts[i] else if i == k then t else ts[i - 1];
  }

  /** What a TASK_Q** points to. */
  class Queue {
    var head: TaskQ?
    ghost var elems: seq<TaskQ>

    ghost predicate Valid()
      reads this, elems`next, elems`prev, elems`mixedPrio, elems`nonSystem
    {
      && (head == null <==> elems == [])
      && (head != null ==> head == elems[0])
      && Distinct(elems)
      && (|elems| == 1 ==> head.next == null && head.prev == null)
      && (|elems| > 1 ==> Cycle(elems))
      && FlagsAgree(elems)
    }

    /** A queue of one whose only task is linked to itself instead of to nothing. */
    ghost predicate SelfLinked()
      reads this, elems`next, elems`prev
    {
      |elems| == 1 && head == elems[0] && LinkedIn(elems, 0)
    }

    /** The one case that enqueue_task gets wrong: a more urgent task joins a mixed-priority queue of one.  The new
        head is linked to itself and the old head cannot be reached any more (taskman.c:175-184 links `*queue`, which
        is the new head already). */
    ghost predicate LosesHead(task: TaskQ)
      reads this, elems`next, elems`prev, elems`mixedPrio, elems`nonSystem, elems`priority, task`priority
    {
      Valid() && |elems| == 1 && elems[0].mixedPrio && task.priority < elems[0].priority
    }

    /** The queue as TaskOrder has it. */
    ghost function View(): Chain
      reads this, elems
    {
      Chain(Images(elems), if SelfLinked() then Links.SelfLinked else Proper, elems != [] && elems[0].mixedPrio)
    }

    /** Where enqueue_task puts the task. */
    ghost function PlaceOf(task: TaskQ): (k: nat)
      reads this, elems`mixedPrio, elems`priority, elems`timeshare, task`priority
      ensures k <= |elems|
    {
      if elems != [] && elems[0].mixedPrio then Place(Keys(Images(elems)), task.priority) else |elems|
    }

    constructor ()
      ensures Valid() && elems == []
    {
      head := null;
      elems := [];
    }

    /** enqueue_task.  A queue that the losing case has left is a proper one again after the next task has joined it. */
    method Enqueue(task: TaskQ)
      requires (Valid() || SelfLinked()) && task !in elems
      modifies this, task`next, task`prev, task`parent, task`mixedPrio, task`nonSystem, elems`next, elems`prev
      ensures View() == AfterEnqueue(old(View()), task.Image(), old(task.mixedPrio))
      ensures !old(LosesHead(task)) ==> Valid() && elems == InsertAt(old(elems), old(PlaceOf(task)), task)
      ensures old(LosesHead(task)) ==> !Valid() && SelfLinked() && elems == [task]
      ensures task.parent == this
      ensures old(elems) != [] ==>
        task.mixedPrio == old(elems[0].mixedPrio) && task.nonSystem == old(elems[0].nonSystem)
      ensures old(elems) == [] ==> task.mixedPrio == old(task.mixedPrio) && task.nonSystem == old(task.nonSystem)
    {
      hide Cycle, LinkedIn, Distinct, FlagsAgree, Images, AfterEnqueue;
      if head == null {
        EnqueueFirst(task);
      } else {
        EnqueueNext(task);
      }
    }

    /** enqueue_task on an empty queue. */
    method EnqueueFirst(task: TaskQ)
      requires Valid() && head == null
      modifies this, task`next, task`prev, task`parent
      ensures View() == AfterEnqueue(old(View()), task.Image(), task.mixedPrio)
      ensures Valid() && elems == [task] && task.parent == this
    {
      task.parent := this;
      task.next := null;
      task.prev := null;
      head := task;
      elems := [task];
    }

    method EnqueueNext(task: TaskQ)
      requires (Valid() || SelfLinked()) && task !in elems && head != null
      modifies this, task`next, task`prev, task`parent, task`mixedPrio, task`nonSystem, elems`next, elems`prev
      ensures View() == AfterEnqueue(old(View()), task.Image(), old(task.mixedPrio))
      ensures !old(LosesHead(task)) ==> Valid() && elems == InsertAt(old(elems), old(PlaceOf(task)), task)
      ensures old(LosesHead(task)) ==> !Valid() && SelfLinked() && elems == [task]
      ensures task.parent == this && task.mixedPrio == old(elems[0].mixedPrio)
      ensures task.nonSystem == old(elems[0].nonSystem)
    {
      hide Cycle, LinkedIn, Distinct, FlagsAgree, Images, AfterEnqueue, View, LosesHead, PlaceOf;
      ghost var es, was, lost, mixed := elems, View(), LosesHead(task), task.mixedPrio;
      EnqueueImage(task);
      TakeFlags(task);
      hide Valid, SelfLinked;
      LinkIn(task);
      if lost {
        LostView(was, task, mixed);
      } else {
        JoinedView(was, es, task, mixed);
      }
    }

    /** The flags of a task that joins others. */
    method TakeFlags(task: TaskQ)
      requires (Valid() || SelfLinked()) && task !in elems && head != null
      modifies task`parent, task`mixedPrio, task`nonSystem
      ensures Valid() == old(Valid()) && SelfLinked() == old(SelfLinked())
      ensures LosesHead(task) == old(LosesHead(task)) && PlaceOf(task) == old(PlaceOf(task))
      ensures task.parent == this && task.mixedPrio == elems[0].mixedPrio && task.nonSystem == elems[0].nonSystem
      ensures elems[0].mixedPrio == old(elems[0].mixedPrio) && elems[0].nonSystem == old(elems[0].nonSystem)
    {
      hide Cycle, LinkedIn, Distinct, Images;
      assert head == elems[0] && head in elems;
      task.parent := this;
      task.nonSystem := head.nonSystem;
      task.mixedPrio := head.mixedPrio;
    }

    /** What the image of the queue says after an enqueue: the losing one, and every other. */
    lemma LostView(was: Chain, task: TaskQ, mixed: bool)
      requires was.tasks != [] && was.mixed && TaskOrder.LosesHead(was.tasks, was.links, task.Image())
      requires SelfLinked() && elems == [task] && task.mixedPrio
      ensures View() == AfterEnqueue(was, task.Image(), mixed)
    {
      hide Valid;
      assert Images([task]) == [task.Image()];
    }

    lemma JoinedView(was: Chain, es: seq<TaskQ>, task: TaskQ, mixed: bool)
      requires was.tasks == Images(es) && es != [] && task.mixedPrio == was.mixed
      requires !(was.mixed && TaskOrder.LosesHead(was.tasks, was.links, task.Image()))
      requires Valid() && elems == InsertAt(es, if was.mixed then Place(Keys(was.tasks), task.priority) else |es|, task)
      ensures View() == AfterEnqueue(was, task.Image(), mixed)
    {
      hide Cycle, LinkedIn, Distinct;
      var k := if was.mixed then Place(Keys(was.tasks), task.priority) else |es|;
      EnqueueInserts(was, task.Image(), mixed);
      InsertAtAt(es, k, task);
      assert elems[k] == task;
      ProperView();
      ImagesInsert(es, k, task);
      hide *;
    }

    lemma ProperView()
      requires Valid()
      ensures View().links == Proper && forall i :: 0 <= i < |elems| ==> elems[i].mixedPrio == View().mixed
    {
      hide Cycle, Distinct, Images;
    }

    /** What the image of the queue says before an enqueue. */
    lemma EnqueueImage(task: TaskQ)
      requires Valid() || SelfLinked()
      ensures LosesHead(task) <==> View().mixed && TaskOrder.LosesHead(View().tasks, View().links, task.Image())
      ensures View().tasks == Images(elems) && PlaceOf(task) <= |elems|
      ensures PlaceOf(task) == if View().mixed then Place(Keys(View().tasks), task.priority) else |elems|
      ensures head != null ==> elems != [] && head == elems[0] && View().mixed == head.mixedPrio
    {
      hide Cycle, Distinct;
      if elems != [] {
        ImagesAt(elems, 0);
      }
    }

    /** The places where a task can go, and what comes of them. */
    lemma PlacesInside(task: TaskQ)
      requires (Valid() || SelfLinked()) && head != null
      ensures elems != [] && head == elems[0] && PlaceOf(task) <= |elems|
      ensures PlaceOf(task) == if head.mixedPrio then Place(Keys(Images(elems)), task.priority) else |elems|
      ensures 0 < PlaceOf(task) < |elems| ==> elems[PlaceOf(task)] != head && Valid()
      ensures PlaceOf(task) == 0 ==> (LosesHead(task) <==> Valid() && |elems| == 1)
      ensures PlaceOf(task) > 0 ==> !LosesHead(task)
      ensures InsertAt(elems, |elems|, task) == elems + [task]
      ensures !(Valid() && SelfLinked()) && (SelfLinked() ==> |elems| == 1)
    {
      hide Cycle, Images;
      ImagesAt(elems, 0);
    }

    /** enqueue_task on a queue that is not empty: find the place, then link. */
    method LinkIn(task: TaskQ)
      requires (Valid() || SelfLinked()) && task !in elems && head != null
      requires task.mixedPrio == elems[0].mixedPrio && task.nonSystem == elems[0].nonSystem
      modifies this`head, this`elems, task`next, task`prev, elems`next, elems`prev
      ensures !old(LosesHead(task)) ==> Valid() && elems == InsertAt(old(elems), old(PlaceOf(task)), task)
      ensures old(LosesHead(task)) ==> !Valid() && SelfLinked() && elems == [task]
    {
      ghost var k := PlaceOf(task);
      PlacesInside(task);
      hide LosesHead, PlaceOf, Valid, SelfLinked, InsertAt, Place, Images, Keys;
      var q: TaskQ? := null;
      if head.mixedPrio {
        q := FindLessUrgent(task.priority);
      }
      if q == head {
        LinkAsHead(task);
      } else if q != null {
        LinkBefore(task, q, k);
      } else {
        Append(task);
      }
    }

    /** Where a step forward from element i leads. */
    lemma NextIs(i: nat)
      requires (Valid() || SelfLinked()) && i < |elems|
      ensures i + 1 < |elems| ==> elems[i].next == elems[i + 1] && elems[i + 1] != head
      ensures i + 1 == |elems| ==> elems[i].next == head || elems[i].next == null
    {
      assert |elems| > 1 ==> LinkedIn(elems, i);
    }

    /** The scan of enqueue_task: the first less urgent task, or NULL after a whole round. */
    method FindLessUrgent(priority: nat) returns (q: TaskQ?)
      requires (Valid() || SelfLinked()) && head != null
      ensures var k := Place(Keys(Images(elems)), priority); q == if k < |elems| then elems[k] else null
    {
      q := head;
      ghost var i, k := 0, Place(Keys(Images(elems)), priority);
      assert elems != [] && head == elems[0];
      while true
        invariant i < |elems| && q == elems[i] && i <= k
        decreases |elems| - i
      {
        ImagesAt(elems, i);
        if priority < q.priority {
          return;
        }
        NextIs(i);
        hide Valid, SelfLinked, Place;
        q := q.next;
        if q == head || q == null {
          return null;
        }
        i := i + 1;
      }
    }

    /** The insertion as last element in enqueue_task. */
    method Append(task: TaskQ)
      requires (Valid() || SelfLinked()) && task !in elems && head != null
      requires task.mixedPrio == elems[0].mixedPrio && task.nonSystem == elems[0].nonSystem
      modifies this`elems, task`next, task`prev, elems`next, elems`prev
      ensures Valid() && elems == old(elems) + [task]
    {
      ghost var es := elems;
      assert Valid() && |es| > 1 ==> LinkedIn(elems, 0) && LinkedIn(elems, |es| - 1);
      task.next := head;
      task.prev := head.prev;
      head.prev := task;
      if task.prev != null {
        task.prev.next := task;
      }
      if task.prev == null {
        task.prev := head;
        head.next := task;
      }
      elems := es + [task];
      forall j | 0 <= j < |elems|
        ensures LinkedIn(elems, j)
      {
        if j < |es| && |es| > 1 {
          assert old(LinkedIn(elems, j));
        }
      }
    }

    /** The insertion of `task` before `q` in enqueue_task, where q is not the head. */
    method LinkBefore(task: TaskQ, q: TaskQ, ghost i: nat)
      requires Valid() && task !in elems && 0 < i < |elems| && q == elems[i]
      requires task.mixedPrio == elems[0].mixedPrio && task.nonSystem == elems[0].nonSystem
      modifies this`elems, task`next, task`prev, elems`next, elems`prev
      ensures Valid() && elems == InsertAt(old(elems), i, task)
    {
      hide Cycle, CycleWith, Distinct, LinkedIn, FlagsAgree;
      ghost var es := elems;
      FlagsInsert(es, i, task);
      DistinctInsert(es, i, task);
      StoreBefore(task, q, es, i);
      InsertedLinked(es, i, task);
      elems := InsertAt(es, i, task);
    }

    method StoreBefore(task: TaskQ, q: TaskQ, ghost ts: seq<TaskQ>, ghost k: nat)
      requires 0 < k < |ts| && ts[k] == q && Cycle(ts) && Distinct(ts) && task !in ts
      modifies task`next, task`prev, ts`next, ts`prev
      ensures CycleWith(ts, k, task)
    {
      assert LinkedIn(ts, k) && LinkedIn(ts, k - 1);
      task.next := q;
      task.prev := q.prev;
      q.prev := task;
      if task.prev != null {
        task.prev.next := task;
      }
      forall j | 0 <= j < |ts|
        ensures ts[j].next == if j == k - 1 then task else ts[if j + 1 == |ts| then 0 else j + 1]
        ensures ts[j].prev == if j == k then task else ts[if j == 0 then |ts| - 1 else j - 1]
      {
        assert old(LinkedIn(ts, j));
      }
    }

    /** The insertion of `task` before the head, where the code means to close the cycle of a former singleton but
        links the new head to itself. */
    method LinkAsHead(task: TaskQ)
      requires (Valid() || SelfLinked()) && task !in elems && head != null
      requires task.mixedPrio == elems[0].mixedPrio && task.nonSystem == elems[0].nonSystem
      modifies this`head, this`elems, task`next, task`prev, elems`next, elems`prev
      ensures |old(elems)| > 1 || old(SelfLinked()) ==> Valid() && elems == InsertAt(old(elems), 0, task)
      ensures |old(elems)| == 1 && old(Valid()) ==> !Valid() && SelfLinked() && elems == [task]
    {
      ghost var es, lost := elems, Valid() && |elems| == 1;
      assert Valid() && |es| > 1 ==> LinkedIn(elems, 0) && LinkedIn(elems, |es| - 1);
      task.next := head;
      task.prev := head.prev;
      head.prev := task;
      if task.prev != null {
        task.prev.next := task;
      }
      head := task;
      if task.prev == null {
        task.prev := head;
        head.next := task;
      }
      elems := if lost then [task] else InsertAt(es, 0, task);
      if !lost {
        forall j | 0 <= j < |elems|
          ensures LinkedIn(elems, j)
        {
          if j > 0 && |es| > 1 {
            assert old(LinkedIn(elems, j - 1));
          }
        }
      }
    }

    /** dequeue_task.  From a queue whose only task is linked to itself it hands that task out and keeps it. */
    method Dequeue() returns (task: TaskQ?)
      requires Valid() || SelfLinked()
      modifies this, elems`next, elems`prev, elems`parent, elems`mixedPrio, elems`nonSystem
      ensures View() == AfterDequeue(old(View()))
      ensures Valid()
      ensures old(elems) == [] ==> task == null && elems == []
      ensures old(elems) != [] ==>
        task == old(elems)[0] && elems == if old(SelfLinked()) then old(elems) else old(elems)[1..]
      ensures task != null ==>
        && task.next == null
        && task.prev == null
        && task.parent == null
        && !task.mixedPrio
        && !task.nonSystem
      ensures forall t <- elems :: t != task ==> t.mixedPrio == old(t.mixedPrio) && t.nonSystem == old(t.nonSystem)
    {
      if head == null {
        return null;
      }
      hide Cycle, LinkedIn, Distinct, Images, FlagsAgree, AfterDequeue, View;
      task := head;
      ghost var es, was, kept := elems, View(), SelfLinked();
      DequeueImage();
      UnlinkHead();
      ghost var mixed := elems != [] && elems[0].mixedPrio;
      ClearTask(task, kept);
      hide Valid, SelfLinked;
      DequeuedView(was, es, kept, mixed);
    }

    /** The end of dequeue_task. */
    method ClearTask(task: TaskQ, ghost kept: bool)
      requires Valid() && (if kept then elems == [task] else task !in elems)
      modifies task`prev, task`next, task`parent, task`mixedPrio, task`nonSystem
      ensures Valid() && Images(elems) == old(Images(elems))
      ensures task.next == null && task.prev == null && task.parent == null && !task.mixedPrio && !task.nonSystem
    {
      hide Cycle, LinkedIn, Distinct, Images;
      task.prev := null;
      task.next := null;
      task.parent := null;
      task.mixedPrio := false;
      task.nonSystem := false;
    }

    /** What the image of the queue says before a dequeue. */
    lemma DequeueImage()
      requires (Valid() || SelfLinked()) && elems != []
      ensures View().tasks == Images(elems) && View().mixed == elems[0].mixedPrio
      ensures View().links == if SelfLinked() then Links.SelfLinked else Proper
      ensures Images(elems)[1..] == Images(elems[1..]) && Images(elems) != []
    {
      hide Cycle, Distinct;
    }

    /** And after it. */
    lemma DequeuedView(was: Chain, es: seq<TaskQ>, kept: bool, mixed: bool)
      requires Valid() && es != [] && was.tasks == Images(es)
      requires was.links == if kept then Links.SelfLinked else Proper
      requires was.tasks[1..] == Images(es[1..])
      requires elems == if kept then es else es[1..]
      requires if kept then !elems[0].mixedPrio else elems != [] ==> elems[0].mixedPrio == was.mixed
      ensures View() == AfterDequeue(was)
    {
      ProperView();
      hide Valid, SelfLinked, FlagsAgree;
    }

    /** The relinking of dequeue_task. */
    method UnlinkHead()
      requires (Valid() || SelfLinked()) && head != null
      modifies this, elems`next, elems`prev
      ensures Valid() && elems == if old(SelfLinked()) then old(elems) else old(elems)[1..]
      ensures !old(SelfLinked()) ==> old(head) !in elems
    {
      ghost var es, kept := elems, SelfLinked();
      assert Valid() && |es| > 1 ==> LinkedIn(elems, 0) && LinkedIn(elems, 1) && LinkedIn(elems, |es| - 1);
      if head.prev != null {
        head.prev.next := head.next;
      }
      if head.next != null {
        head.next.prev := head.prev;
        head := head.next;
        if head.next == head {
          head.next := null;
          head.prev := null;
        }
      } else {
        head := null;
      }
      elems := if kept then es else es[1..];
      if |elems| > 1 {
        forall j | 0 <= j < |elems|
          ensures LinkedIn(elems, j)
        {
          assert old(LinkedIn(elems, j + 1));
        }
      }
    }

    /** The turn of a ready queue in timer_handler: the head moves on, and the old head is then the last of the
        cycle. */
    method Rotate()
      requires Valid() && head != null
      modifies this
      ensures Valid()
      ensures elems == if |old(elems)| > 1 then old(elems)[1..] + [old(elems)[0]] else old(elems)
    {
      ghost var es := elems;
      if |es| > 1 {
        assert LinkedIn(elems, 0);
      }
      if head.next != null {
        head := head.next;
        elems := es[1..] + [es[0]];
        forall j | 0 <= j < |elems|
          ensures LinkedIn(elems, j)
        {
          assert old(LinkedIn(elems, if j + 1 == |es| then 0 else j + 1));
        }
      }
    }
  }

  ghost predicate Disjoint(a: seq<TaskQ>, b: seq<TaskQ>) {
    forall t <- a :: t !in b
  }

  lemma TailDisjoint(a: seq<TaskQ>, b: seq<TaskQ>)
    requires Disjoint(a, b) && a != []
    ensures a[0] !in b && Disjoint(a[1..], b) && Disjoint(a[1..], b + [a[0]]) == (a[0] !in a[1..])
  {
    assert a[0] in a && forall t <- a[1..] :: t in a;
  }

  /** Nothing is lost in a queue that is not a mixed-priority one, and a task joins it at the end. */
  lemma JoinsAtEnd(q: Queue, task: TaskQ)
    requires q.Valid() && (q.elems != [] ==> !q.elems[0].mixedPrio)
    ensures !q.LosesHead(task) && InsertAt(q.elems, q.PlaceOf(task), task) == q.elems + [task]
  {
  }

  /** A queue none of whose tasks has changed is still a proper one. */
  twostate lemma KeptValid(q: Queue)
    requires old(q.Valid()) && unchanged(q) && forall t <- q.elems :: unchanged(t)
    ensures q.Valid()
  {
    forall i | 0 <= i < |q.elems|
      ensures unchanged(q.elems[i])
    {
      assert q.elems[i] in q.elems;
    }
    assert |q.elems| > 1 ==> forall i :: 0 <= i < |q.elems| ==> old(LinkedIn(q.elems, i)) && LinkedIn(q.elems, i);
  }

  /** The queueing part of wake.  From a queue that a losing enqueue has left, the task becomes ready and is still the
      head of the wait queue: both queues then share its links. */
  method WakeInto(waking: Queue, ready: Queue) returns (task: TaskQ?)
    requires waking != ready && (waking.Valid() || waking.SelfLinked()) && ready.Valid()
    requires Disjoint(waking.elems, ready.elems) && (ready.elems != [] ==> !ready.elems[0].mixedPrio)
    modifies waking, ready, waking.elems, ready.elems`next, ready.elems`prev
    ensures task == null <==> old(waking.elems) == []
    ensures task == null ==> ready.elems == old(ready.elems) && waking.elems == []
    ensures task != null ==>
      && task == old(waking.elems)[0]
      && ready.Valid() && ready.elems == old(ready.elems) + [task]
    ensures task != null && !old(waking.SelfLinked()) ==> waking.Valid() && waking.elems == old(waking.elems)[1..]
    ensures old(waking.SelfLinked()) ==> waking.head == task && task in ready.elems
  {
    hide Images, AfterEnqueue, AfterDequeue, InsertAt, Cycle, LinkedIn, FlagsAgree, Queue.LosesHead, Queue.PlaceOf;
    hide Queue.View;
    ghost var ws, rs, kept := waking.elems, ready.elems, waking.SelfLinked();
    if ws != [] {
      TailDisjoint(ws, rs);
    }
    assert forall t <- rs :: t !in ws;
    hide Queue.SelfLinked, Distinct;
    task := waking.Dequeue();
    KeptValid(ready);
    if task != null {
      MakeReady(task, waking, ready, kept);
    }
  }

  /** The second half of wake: the task gets the flags of a ready queue and joins it. */
  method MakeReady(task: TaskQ, waking: Queue, ready: Queue, ghost kept: bool)
    requires waking != ready && waking.Valid() && ready.Valid() && task !in ready.elems
    requires if kept then waking.elems == [task] else task !in waking.elems
    requires (kept || Disjoint(waking.elems, ready.elems)) && (ready.elems != [] ==> !ready.elems[0].mixedPrio)
    modifies ready, task, ready.elems`next, ready.elems`prev
    ensures ready.Valid() && ready.elems == old(ready.elems) + [task]
    ensures waking.head == old(waking.head) && waking.elems == old(waking.elems)
    ensures !kept ==> waking.Valid()
  {
    hide Images, AfterEnqueue, InsertAt, Cycle, LinkedIn, FlagsAgree, Queue.LosesHead, Queue.PlaceOf, Queue.View;
    hide Distinct;
    task.mixedPrio := false;
    task.nonSystem := false;
    JoinsAtEnd(ready, task);
    assert forall t <- waking.elems :: kept || (t != task && t !in ready.elems);
    ready.Enqueue(task);
    if !kept {
      KeptValid(waking);
    }
  }
}
