/** install_timer, remove_timer and timer_isr of virgoos/src/base/timers.c over the global list. */
module Timers {
  import opened TimerList

  /** The timers whose callback is run: those that the priority of the running task does not mask. */
  function Called(fired: seq<Timer>, running: int): seq<nat> {
    if fired == [] then []
    else
      var t := fired[|fired| - 1];
      if running < 0 || running >= t.priority then Called(fired[..|fired| - 1], running) + [t.id]
      else Called(fired[..|fired| - 1], running)
  }

  lemma CalledOfMore(fired: seq<Timer>, t: Timer, running: int)
    ensures Called(fired + [t], running)
            == if running < 0 || running >= t.priority then Called(fired, running) + [t.id] else Called(fired, running)
  {
    assert (fired + [t])[..|fired|] == fired;
  }

  /** Whose callback is run: that of every timer that went off and that a running task of a smaller priority number does
      not mask. */
  lemma {:induction false} CalledExactly(fired: seq<Timer>, running: int, id: nat)
    ensures id in Called(fired, running) <==>
      exists k :: 0 <= k < |fired| && fired[k].id == id && !(0 <= running < fired[k].priority)
  {
    if fired != [] {
      var n := |fired| - 1;
      CalledExactly(fired[..n], running, id);
      if id in Called(fired[..n], running) {
        var k :| 0 <= k < n && fired[..n][k].id == id && !(0 <= running < fired[..n][k].priority);
        assert fired[k] == fired[..n][k];
      }
      if k :| 0 <= k < |fired| && fired[k].id == id && !(0 <= running < fired[k].priority) {
        assert k < n ==> fired[..n][k] == fired[k];
      }
    }
  }

  /** Callbacks run in the order in which the timers went off. */
  lemma {:induction false} CalledInOrder(a: seq<Timer>, b: seq<Timer>, running: int)
    ensures Called(a + b, running) == Called(a, running) + Called(b, running)
  {
    if b == [] {
      assert a + b == a;
    } else {
      var n := |b| - 1;
      CalledInOrder(a, b[..n], running);
      assert a + b == (a + b[..n]) + [b[n]] && b == b[..n] + [b[n]];
      CalledOfMore(a + b[..n], b[n], running);
    }
  }

  class TimerQueue {
    var list: seq<Timer>

    constructor ()
      ensures list == []
    {
      list := [];
    }

    /** list_sorted_insert with cmp_timers. */
    method SortedInsert(t: Timer) returns (p: nat)
      modifies this
      ensures list == Inserted(old(list), t) && p == Slot(old(list), t.timeout)
    {
      p := 0;
      while p < |list| && list[p].timeout < t.timeout
        invariant p <= |list| && Below(list[..p], t.timeout)
      {
        p := p + 1;
      }
      SlotIs(list, p, t.timeout);
      list := list[..p] + [t] + list[p..];
    }

    method InstallTimer(t: Timer)
      modifies this
      ensures list == Install(old(list), t)
      ensures Sorted(old(list)) ==> Sorted(list) && multiset(list) == multiset(old(list)) + multiset{Loaded(t)}
      ensures t.resolution > 0 ==> exists u <- list :: u == t.(latch := u.latch) && IsLatch(t, u.latch)
    {
      if t.resolution > 0 {
        LatchLoaded(t, Loaded(t).latch);
      }
      assert Loaded(t) in Install(list, t);
      hide Slot, Reload;
      if Sorted(list) {
        InsertedSorted(list, Loaded(t));
      }
      var p := SortedInsert(Loaded(t));
    }

    method RemoveTimer(id: nat)
      modifies this
      ensures list == Remove(old(list), id)
      ensures Sorted(old(list)) ==> Sorted(list)
    {
      if Sorted(list) {
        RemoveSorted(list, id);
      }
      var p := 0;
      while p < |list| && list[p].id != id
        invariant p <= |list| && forall i :: 0 <= i < p ==> list[i].id != id
      {
        p := p + 1;
      }
      IndexIs(list, p, id);
      if p < |list| {
        list := list[..p] + list[p + 1..];
      }
    }

    static lemma IndexIs(q: seq<Timer>, p: nat, id: nat)
      requires p <= |q| && (p < |q| ==> q[p].id == id) && forall i :: 0 <= i < p ==> q[i].id != id
      ensures IndexOf(q, id) == p
    {
    }

    /** One turn of the loop of timer_isr: counts the timer at a position and reports where the loop goes on. */
    method CountDown(at: nat, running: int, called: seq<nat>, ghost s: Pass) returns (next: nat, called': seq<nat>)
      requires at < |list| && s.q == list && s.at == at && called == Called(s.fired, running)
      modifies this
      ensures list == Turn(s).q && next == Turn(s).at && called' == Called(Turn(s).fired, running)
    {
      hide Slot, Reload, Inserted, Called;
      var t := Counted(list[at]);
      CalledOfMore(s.fired, t, running);
      called' := called;
      if t.latch >= 1 {
        list := list[at := t];
        next := at + 1;
      } else {
        list := list[..at] + list[at + 1..];
        next := at;
        if t.periodic {
          next := SortedInsert(Loaded(t));
          next := next + 1;
        }
        if running < 0 || running >= t.priority {
          called' := called + [t.id];
        }
      }
    }

    /** timer_isr, as far as a number of turns of its loop reach; running is the priority of the running task, negative
        when there is none. */
    method TimerIsr(running: int, turns: nat) returns (ended: bool, called: seq<nat>)
      modifies this
      ensures var s := Turns(Start(old(list)), turns);
        list == s.q && called == Called(s.fired, running) && ended == Ended(s)
      ensures Sorted(old(list)) && Clear(old(list)) && turns == |old(list)| ==>
        ended && list == Tick(old(list)) && called == Called(Fired(old(list)), running)
    {
      hide Slot, Reload, Clear, Tick, Fired, Turn;
      ghost var q := list;
      if Sorted(q) && Clear(q) {
        ClearPass(q);
      }
      var at, n := 0, 0;
      called := [];
      while n < turns && at < |list|
        invariant n <= turns
        invariant var s := Turns(Start(q), n); s.q == list && s.at == at && called == Called(s.fired, running)
        decreases turns - n
      {
        at, called := CountDown(at, running, called, Turns(Start(q), n));
        n := n + 1;
      }
      CountedGrows(Start(q), n, turns);
      ended := at >= |list|;
    }
  }
}
