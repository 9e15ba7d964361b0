/** The timer list of virgoos/src/base/timers.c, sorted by timeout, and what one pass of the timer interrupt over it
    does. */
module TimerList {
  import opened Common
  import opened Division

  const TICKS_PER_SEC: nat := 1000

  /** struct timer; id stands for its address. */
  datatype Timer = Timer(id: nat, timeout: nat, latch: nat, resolution: nat, periodic: bool, priority: nat)

  /** The latch that install_timer and the interrupt load. */
  function Reload(t: Timer): (r: nat)
    ensures r < TWO32
  {
    if t.resolution == 0 then 0 else (t.timeout * TICKS_PER_SEC) % TWO32 / t.resolution
  }

  function Loaded(t: Timer): Timer {
    t.(latch := Reload(t))
  }

  /** --latch, unsigned. */
  function Counted(t: Timer): Timer {
    t.(latch := if t.latch == 0 then TWO32 - 1 else t.latch - 1)
  }

  /** The next tick takes the latch to 0. */
  predicate Fires(t: Timer) {
    Counted(t).latch < 1
  }

  // ---------------------------------------------------------------- the list

  predicate Sorted(q: seq<Timer>) {
    forall i, j :: 0 <= i < j < |q| ==> q[i].timeout <= q[j].timeout
  }

  /** Where list_sorted_insert puts a timer: before the first one whose timeout is not smaller. */
  function Slot(q: seq<Timer>, timeout: nat): (p: nat)
    ensures p <= |q| && (forall i :: 0 <= i < p ==> q[i].timeout < timeout) && (p < |q| ==> q[p].timeout >= timeout)
  {
    if q == [] || q[0].timeout >= timeout then 0 else 1 + Slot(q[1..], timeout)
  }

  function Inserted(q: seq<Timer>, t: Timer): seq<Timer> {
    q[..Slot(q, t.timeout)] + [t] + q[Slot(q, t.timeout)..]
  }

  function Without(q: seq<Timer>, p: nat): seq<Timer>
    requires p < |q|
  {
    q[..p] + q[p + 1..]
  }

  function IndexOf(q: seq<Timer>, id: nat): (p: nat)
    ensures p <= |q| && (p < |q| ==> q[p].id == id) && forall i :: 0 <= i < p ==> q[i].id != id
  {
    if q == [] || q[0].id == id then 0 else 1 + IndexOf(q[1..], id)
  }

  function Install(q: seq<Timer>, t: Timer): seq<Timer> {
    Inserted(q, Loaded(t))
  }

  function Remove(q: seq<Timer>, id: nat): seq<Timer> {
    if IndexOf(q, id) < |q| then Without(q, IndexOf(q, id)) else q
  }

  lemma InsertedSorted(q: seq<Timer>, t: Timer)
    requires Sorted(q)
    ensures Sorted(Inserted(q, t)) && multiset(Inserted(q, t)) == multiset(q) + multiset{t}
  {
    var p := Slot(q, t.timeout);
    hide Slot;
    BehindSlot(q, t.timeout, p);
    hide Sorted;
    JoinSorted(q, t, p);
    assert q == q[..p] + q[p..];
  }

  lemma BehindSlot(q: seq<Timer>, timeout: nat, p: nat)
    requires Sorted(q) && p <= |q| && (p < |q| ==> q[p].timeout >= timeout)
    ensures forall i :: p <= i < |q| ==> q[i].timeout >= timeout
  {
  }

  lemma JoinSorted(q: seq<Timer>, t: Timer, p: nat)
    requires Sorted(q) && p <= |q|
    requires forall i :: 0 <= i < p ==> q[i].timeout < t.timeout
    requires forall i :: p <= i < |q| ==> q[i].timeout >= t.timeout
    ensures Sorted(q[..p] + [t] + q[p..])
  {
    var r := q[..p] + [t] + q[p..];
    forall i, j | 0 <= i < j < |r|
      ensures r[i].timeout <= r[j].timeout
    {
      assert r[i] == if i < p then q[i] else if i == p then t else q[i - 1];
      assert r[j] == if j < p then q[j] else if j == p then t else q[j - 1];
    }
  }

  lemma RemoveSorted(q: seq<Timer>, id: nat)
    requires Sorted(q)
    ensures Sorted(Remove(q, id))
  {
  }

  // ---------------------------------------------------------------- one pass of the interrupt

  /** The loop of timer_isr between two timers: the list, where it stands, whom it has counted and who went off. */
  datatype Pass = Pass(q: seq<Timer>, at: nat, counted: seq<nat>, fired: seq<Timer>)

  /** One turn of the loop, as written. */
  function Turn(s: Pass): Pass
    requires s.at < |s.q|
  {
    var t := Counted(s.q[s.at]);
    var counted := s.counted + [t.id];
    if !Fires(s.q[s.at]) then Pass(s.q[s.at := t], s.at + 1, counted, s.fired)
    else
      var rest := Without(s.q, s.at);
      if t.periodic then Pass(Inserted(rest, Loaded(t)), Slot(rest, t.timeout) + 1, counted, s.fired + [t])
      else Pass(rest, s.at, counted, s.fired + [t])
  }

  /** The loop after n turns, if it has not ended before. */
  function Turns(s: Pass, n: nat): Pass
    decreases n
  {
    if n == 0 then s
    else
      var r := Turns(s, n - 1);
      if r.at < |r.q| then Turn(r) else r
  }

  function Start(q: seq<Timer>): Pass {
    Pass(q, 0, [], [])
  }

  predicate Ended(s: Pass) {
    s.at >= |s.q|
  }

  // ---------------------------------------------------------------- the tick as intended

  /** A timer after the tick. */
  function After(t: Timer): seq<Timer> {
    if !Fires(t) then [Counted(t)] else if t.periodic then [Loaded(t)] else []
  }

  /** Every timer counted once. */
  function Tick(q: seq<Timer>): seq<Timer> {
    if q == [] then [] else Tick(q[..|q| - 1]) + After(q[|q| - 1])
  }

  function Ids(q: seq<Timer>): (ids: seq<nat>)
    ensures |ids| == |q| && forall i :: 0 <= i < |q| ==> ids[i] == q[i].id
  {
    seq(|q|, i requires 0 <= i < |q| => q[i].id)
  }

  /** Timers that the tick sets off, with the latch run down. */
  function Fired(q: seq<Timer>): seq<Timer> {
    if q == [] then []
    else if Fires(q[|q| - 1]) then Fired(q[..|q| - 1]) + [Counted(q[|q| - 1])]
    else Fired(q[..|q| - 1])
  }

  /** The timer is still in the list after the tick. */
  predicate Stays(t: Timer) {
    !Fires(t) || t.periodic
  }

  /** Timer p goes off, is periodic, and another one with its timeout stands before it and stays. */
  predicate Collides(q: seq<Timer>, p: nat)
    requires p < |q|
  {
    Fires(q[p]) && q[p].periodic && exists i :: 0 <= i < p && q[i].timeout == q[p].timeout && Stays(q[i])
  }

  predicate Clear(q: seq<Timer>) {
    forall p :: 0 <= p < |q| ==> !Collides(q, p)
  }

  predicate Below(q: seq<Timer>, bound: nat) {
    forall i :: 0 <= i < |q| ==> q[i].timeout < bound
  }

  lemma {:induction false} TickBelow(q: seq<Timer>, bound: nat)
    requires forall i :: 0 <= i < |q| && Stays(q[i]) ==> q[i].timeout < bound
    ensures Below(Tick(q), bound)
  {
    if q != [] {
      TickBelow(q[..|q| - 1], bound);
    }
  }

  /** A tick leaves timeouts in order. */
  lemma {:induction false} TickSorted(q: seq<Timer>)
    requires Sorted(q)
    ensures Sorted(Tick(q))
  {
    if q != [] {
      var n := |q| - 1;
      TickSorted(q[..n]);
      TickBelow(q[..n], q[n].timeout + 1);
    }
  }

  lemma TurnsNext(s: Pass, n: nat)
    requires n > 0 && !Ended(Turns(s, n - 1))
    ensures Turns(s, n) == Turn(Turns(s, n - 1))
  {
  }

  /** Before the first collision the loop is in step with the intended tick. */
  lemma {:induction false} InStep(q: seq<Timer>, n: nat)
    requires Sorted(q) && n <= |q| && forall p :: 0 <= p < n ==> !Collides(q, p)
    ensures Turns(Start(q), n) == Pass(Tick(q[..n]) + q[n..], |Tick(q[..n])|, Ids(q[..n]), Fired(q[..n]))
  {
    hide Fires, After, Turn, Sorted, Collides, Ids;
    if n > 0 {
      var k := n - 1;
      InStep(q, k);
      assert !Collides(q, k);
      hide Turns;
      TurnsNext(Start(q), n);
      TickOfMore(q, k);
      hide Tick, Fired;
      TurnInStep(q, k);
      assert q[k + 1..] == q[n..] && q[..k + 1] == q[..n];
    } else {
      NothingCounted(q);
    }
  }

  lemma NothingCounted(q: seq<Timer>)
    ensures Start(q) == Pass(Tick(q[..0]) + q[0..], |Tick(q[..0])|, Ids(q[..0]), Fired(q[..0]))
  {
    assert q[..0] == [] && [] + q[0..] == q;
  }

  /** One timer more. */
  lemma TickOfMore(q: seq<Timer>, n: nat)
    requires n < |q|
    ensures Tick(q[..n + 1]) == Tick(q[..n]) + After(q[n])
    ensures Fired(q[..n + 1]) == if Fires(q[n]) then Fired(q[..n]) + [Counted(q[n])] else Fired(q[..n])
  {
    hide After, Fires;
    assert q[..n + 1][..n] == q[..n];
  }

  lemma TurnInStep(q: seq<Timer>, n: nat)
    requires Sorted(q) && n < |q| && !Collides(q, n)
    ensures Turn(Pass(Tick(q[..n]) + q[n..], |Tick(q[..n])|, Ids(q[..n]), Fired(q[..n])))
            == Pass(Tick(q[..n]) + After(q[n]) + q[n + 1..], |Tick(q[..n]) + After(q[n])|, Ids(q[..n + 1]),
                    if Fires(q[n]) then Fired(q[..n]) + [Counted(q[n])] else Fired(q[..n]))
  {
    hide Tick, Slot, Sorted, Collides, Fired;
    var r := Tick(q[..n]);
    var whole := r + q[n..];
    assert whole[|r|] == q[n] && Without(whole, |r|) == r + q[n + 1..];
    assert Ids(q[..n + 1]) == Ids(q[..n]) + [q[n].id];
    if Fires(q[n]) && q[n].periodic {
      SlotInPlace(q, n);
      var rest := r + q[n + 1..];
      assert rest[..|r|] == r && rest[|r|..] == q[n + 1..];
      assert Loaded(Counted(q[n])) == Loaded(q[n]);
      assert r + [Loaded(q[n])] + q[n + 1..] == Inserted(rest, Loaded(Counted(q[n])));
    }
  }

  lemma SlotIs(q: seq<Timer>, p: nat, timeout: nat)
    requires p <= |q| && Below(q[..p], timeout) && (p < |q| ==> q[p].timeout >= timeout)
    ensures Slot(q, timeout) == p
  {
    forall i | 0 <= i < p
      ensures q[i].timeout < timeout
    {
      assert q[..p][i] == q[i];
    }
  }

  /** Without an equal timeout before it, a reloaded timer returns to its own place. */
  lemma SlotInPlace(q: seq<Timer>, n: nat)
    requires Sorted(q) && n < |q| && Fires(q[n]) && q[n].periodic && !Collides(q, n)
    ensures Slot(Tick(q[..n]) + q[n + 1..], q[n].timeout) == |Tick(q[..n])|
  {
    hide Tick, Slot;
    var r := Tick(q[..n]);
    TickBelow(q[..n], q[n].timeout);
    assert (r + q[n + 1..])[..|r|] == r;
    SlotIs(r + q[n + 1..], |r|, q[n].timeout);
  }

  /** Without collisions the interrupt is the intended tick: every timer is counted once, in order. */
  lemma ClearPass(q: seq<Timer>)
    requires Sorted(q) && Clear(q)
    ensures Turns(Start(q), |q|) == Pass(Tick(q), |Tick(q)|, Ids(q), Fired(q)) && Sorted(Tick(q))
  {
    hide Collides, Turns, Tick, Fired;
    InStep(q, |q|);
    TickSorted(q);
    assert q[..|q|] == q && Tick(q) + q[|q|..] == Tick(q);
  }

  // ---------------------------------------------------------------- collisions

  lemma {:induction false} TickIds(q: seq<Timer>)
    ensures forall k :: 0 <= k < |Tick(q)| ==> Tick(q)[k].id in Ids(q)
  {
    if q != [] {
      var n := |q| - 1;
      TickIds(q[..n]);
      assert Ids(q) == Ids(q[..n]) + [q[n].id];
    }
  }

  /** A timer that stays is found in the list after the tick, with its timeout. */
  lemma {:induction false} StaysInTick(q: seq<Timer>, i: nat) returns (k: nat)
    requires i < |q| && Stays(q[i])
    ensures k < |Tick(q)| && Tick(q)[k].timeout == q[i].timeout
  {
    var n := |q| - 1;
    if i == n {
      k := |Tick(q[..n])|;
    } else {
      k := StaysInTick(q[..n], i);
    }
  }

  /** Right after the first collision the loop goes to a timer that it has counted already. */
  lemma CollisionTurn(q: seq<Timer>, p: nat)
    requires Sorted(q) && p < |q| && Collides(q, p) && forall i :: 0 <= i < p ==> !Collides(q, i)
    ensures var s := Turns(Start(q), p + 1);
      s.counted == Ids(q[..p + 1]) && s.at < |s.q| && s.q[s.at].id in Ids(q[..p])
  {
    hide Tick, Slot, Fired, Turn, Ids, Reload, Sorted;
    InStep(q, p);
    var r := Tick(q[..p]);
    var i :| 0 <= i < p && q[i].timeout == q[p].timeout && Stays(q[i]);
    assert q[..p][i] == q[i];
    var k := StaysInTick(q[..p], i);
    TickIds(q[..p]);
    TurnBack(r, q[p], q[p + 1..], k, Ids(q[..p]), Fired(q[..p]));
    assert q[p..] == [q[p]] + q[p + 1..];
    IdsOfMore(q, p);
  }

  lemma IdsOfMore(q: seq<Timer>, p: nat)
    requires p < |q|
    ensures Ids(q[..p + 1]) == Ids(q[..p]) + [q[p].id]
  {
  }

  /** A periodic timer t that goes off behind one of its own timeout is put before it, and the loop goes on there. */
  lemma TurnBack(r: seq<Timer>, t: Timer, rest: seq<Timer>, k: nat, counted: seq<nat>, fired: seq<Timer>)
    requires k < |r| && r[k].timeout == t.timeout && Fires(t) && t.periodic
    ensures var s := Turn(Pass(r + ([t] + rest), |r|, counted, fired));
      s.counted == counted + [t.id] && s.at < |s.q| && exists j :: 0 <= j < |r| && s.q[s.at] == r[j]
  {
    hide Slot, Reload;
    var whole, left := r + ([t] + rest), r + rest;
    assert whole[|r|] == t && Without(whole, |r|) == left;
    var j := Slot(left, t.timeout);
    assert j <= k by {
      assert left[k].timeout == t.timeout;
    }
    assert Inserted(left, Loaded(Counted(t)))[j + 1] == left[j] == r[j];
  }

  predicate Distinct(ids: seq<nat>) {
    forall i, j :: 0 <= i < j < |ids| ==> ids[i] != ids[j]
  }

  lemma TurnCounts(s: Pass)
    requires s.at < |s.q|
    ensures Turn(s).counted == s.counted + [s.q[s.at].id]
  {
  }

  lemma {:induction false} CountedGrows(s: Pass, n: nat, m: nat)
    requires n <= m
    ensures Turns(s, n).counted <= Turns(s, m).counted
    ensures Ended(Turns(s, n)) ==> Turns(s, m) == Turns(s, n)
    decreases m
  {
    hide Turn;
    if n < m {
      CountedGrows(s, n, m - 1);
      var r := Turns(s, m - 1);
      if r.at < |r.q| {
        TurnCounts(r);
      }
    }
  }

  lemma FirstCollision(q: seq<Timer>) returns (p: nat)
    requires !Clear(q)
    ensures p < |q| && Collides(q, p) && forall i :: 0 <= i < p ==> !Collides(q, i)
  {
    hide Collides;
    p := 0;
    while !Collides(q, p)
      invariant p < |q| && forall i :: 0 <= i < p ==> !Collides(q, i)
      decreases |q| - p
    {
      p := p + 1;
      assert p == |q| ==> Clear(q);
    }
  }

  /** The interrupt counts every timer exactly once if and only if no timer collides; otherwise it counts one a second
      time, or never ends. */
  lemma EachOnceExact(q: seq<Timer>)
    requires Sorted(q) && Distinct(Ids(q))
    ensures Clear(q) <==> exists n: nat :: Ended(Turns(Start(q), n)) && Turns(Start(q), n).counted == Ids(q)
  {
    hide Turns, Tick, Fired, Collides, Slot;
    if Clear(q) {
      ClearPass(q);
    } else {
      var p := FirstCollision(q);
      CollisionTurn(q, p);
      var s := Turns(Start(q), p + 1);
      TurnsOne(Start(q), p + 1);
      var again := Ids(q[..p + 1]) + [s.q[s.at].id];
      assert Turns(Start(q), p + 2).counted == again;
      assert !Distinct(again) by {
        var i :| 0 <= i < p && Ids(q[..p])[i] == s.q[s.at].id;
        assert again[i] == q[i].id && again[p + 1] == q[i].id;
      }
      forall n: nat | Ended(Turns(Start(q), n))
        ensures Turns(Start(q), n).counted != Ids(q)
      {
        RepeatStays(q, p, n, again);
      }
    }
  }

  lemma TurnsOne(s: Pass, n: nat)
    ensures var r := Turns(s, n); Turns(s, n + 1) == if r.at < |r.q| then Turn(r) else r
  {
  }

  lemma RepeatStays(q: seq<Timer>, p: nat, n: nat, again: seq<nat>)
    requires !Ended(Turns(Start(q), p + 1)) && Ended(Turns(Start(q), n))
    requires Turns(Start(q), p + 2).counted == again && !Distinct(again) && Distinct(Ids(q))
    ensures Turns(Start(q), n).counted != Ids(q)
  {
    hide Turns, Ids;
    if n <= p + 1 {
      CountedGrows(Start(q), n, p + 1);
    } else {
      CountedGrows(Start(q), p + 2, n);
      var ids := Turns(Start(q), n).counted;
      var i, j :| 0 <= i < j < |again| && again[i] == again[j];
      assert ids[i] == ids[j];
    }
  }

  /** Two periodic timers of the same timeout that reload to one tick: once both are due, the interrupt never ends. */
  lemma {:induction false} NeverEnds(a: Timer, b: Timer, n: nat)
    requires a.timeout == b.timeout && a.periodic && b.periodic
    requires Reload(a) == 1 && Reload(b) == 1 && a.latch == 1 && b.latch == 1
    ensures var s := Turns(Start([a, b]), n);
      s.at < |s.q| && (s.q == [a, b] || s.q == [b, a]) && |s.counted| == n
  {
    hide Turn, Reload, Fires;
    if n > 0 {
      NeverEnds(a, b, n - 1);
      var s := Turns(Start([a, b]), n - 1);
      TurnOfPair(s);
    }
  }

  lemma TurnOfPair(s: Pass)
    requires |s.q| == 2 && s.at < 2 && s.q[0].timeout == s.q[1].timeout
    requires forall i :: 0 <= i < 2 ==> s.q[i].periodic && s.q[i].latch == 1 && Reload(s.q[i]) == 1
    ensures Turn(s).at == 1 && Turn(s).q == [s.q[s.at], s.q[1 - s.at]] && |Turn(s).counted| == |s.counted| + 1
  {
    hide Reload, Slot;
    var t, u := s.q[s.at], s.q[1 - s.at];
    assert Reload(Counted(t)) == Reload(t) by {
      ReloadIgnoresLatch(t);
    }
    assert Loaded(Counted(t)) == t;
    assert Without(s.q, s.at) == [u];
    assert [u][..0] == [];
    SlotIs([u], 0, t.timeout);
    assert Inserted([u], t) == [t, u];
  }

  lemma ReloadIgnoresLatch(t: Timer)
    ensures Reload(Counted(t)) == Reload(t)
  {
  }

  // ---------------------------------------------------------------- periodic timers

  /** Timeouts that grow from timer to timer. */
  predicate Strict(q: seq<Timer>) {
    forall i, j :: 0 <= i < j < |q| ==> q[i].timeout < q[j].timeout
  }

  lemma StrictIsClear(q: seq<Timer>)
    requires Strict(q)
    ensures Sorted(q) && Clear(q)
  {
  }

  lemma {:induction false} TickStrict(q: seq<Timer>)
    requires Strict(q)
    ensures Strict(Tick(q))
  {
    if q != [] {
      TickStrict(q[..|q| - 1]);
      TickBelow(q[..|q| - 1], q[|q| - 1].timeout);
    }
  }

  function Ticks(q: seq<Timer>, n: nat): seq<Timer> {
    if n == 0 then q else Tick(Ticks(q, n - 1))
  }

  /** A periodic timer after n ticks. */
  function Nth(t: Timer, n: nat): Timer {
    if n == 0 then t else if Fires(Nth(t, n - 1)) then Loaded(Nth(t, n - 1)) else Counted(Nth(t, n - 1))
  }

  /** Ticks until a latch runs down: an unsigned latch of 0 takes a full turn. */
  function TicksOf(latch: nat): (d: nat)
    requires latch < TWO32
    ensures 0 < d <= TWO32
  {
    if latch == 0 then TWO32 else latch
  }

  function Left(t: Timer, n: nat): (d: nat)
    requires t.latch < TWO32
    ensures d > 0
  {
    var due, period := TicksOf(t.latch), TicksOf(Reload(t));
    if n < due then due - n else period - Rem(n - due, period)
  }

  lemma RemStep(x: nat, m: nat)
    requires m > 0
    ensures Rem(x + 1, m) == if Rem(x, m) + 1 == m then 0 else Rem(x, m) + 1
    ensures Rem(0, m) == 0
  {
    hide Quot, Rem;
    QuotRem(x, m);
    QuotRemUnique(m, 0, 0);
    Carry(m, Quot(x, m));
    if Rem(x, m) + 1 == m {
      QuotRemUnique(m, Quot(x, m) + 1, 0);
    } else {
      QuotRemUnique(m, Quot(x, m), Rem(x, m) + 1);
    }
  }

  lemma {:induction false} NthLatch(t: Timer, n: nat)
    requires t.latch < TWO32
    ensures var u := Nth(t, n);
      u == t.(latch := u.latch) && u.latch < TWO32 && TicksOf(u.latch) == Left(t, n)
  {
    hide Rem;
    if n > 0 {
      NthLatch(t, n - 1);
      var due, period := TicksOf(t.latch), TicksOf(Reload(t));
      if n - 1 >= due {
        RemStep(n - 1 - due, period);
      } else {
        RemStep(0, period);
      }
      assert Reload(Nth(t, n - 1)) == Reload(t);
    }
  }

  /** A periodic timer goes off at the tick when its latch has run down, and then every Reload ticks, and at no
      other. */
  lemma FiresEveryPeriod(t: Timer, n: nat)
    requires t.latch < TWO32 && n > 0
    ensures Fires(Nth(t, n - 1)) <==> n >= TicksOf(t.latch) && Rem(n - TicksOf(t.latch), TicksOf(Reload(t))) == 0
  {
    hide Rem, Nth;
    var due, period := TicksOf(t.latch), TicksOf(Reload(t));
    NthLatch(t, n - 1);
    if n - 1 >= due {
      RemStep(n - 1 - due, period);
    } else {
      RemStep(0, period);
    }
  }

  lemma {:induction false} TimerTicks(q: seq<Timer>, t: Timer)
    requires t in q
    ensures Stays(t) ==> Nth(t, 1) in Tick(q)
    ensures Fires(t) ==> Counted(t) in Fired(q)
  {
    var n := |q| - 1;
    assert Nth(t, 0) == t;
    if q[n] == t {
      assert Stays(t) ==> Tick(q)[|Tick(q[..n])|] == Nth(t, 1);
    } else {
      TimerTicks(q[..n], t);
      if Stays(t) {
        var k :| 0 <= k < |Tick(q[..n])| && Tick(q[..n])[k] == Nth(t, 1);
        assert Tick(q)[k] == Nth(t, 1);
      }
    }
  }

  lemma {:induction false} TicksHold(q: seq<Timer>, t: Timer, n: nat)
    requires Strict(q) && t in q && t.periodic
    ensures Strict(Ticks(q, n)) && Nth(t, n) in Ticks(q, n) && Nth(t, n).timeout == t.timeout && Nth(t, n).periodic
  {
    hide Tick, Fires, Reload;
    if n > 0 {
      TicksHold(q, t, n - 1);
      TickStrict(Ticks(q, n - 1));
      TimerTicks(Ticks(q, n - 1), Nth(t, n - 1));
      assert Nth(Nth(t, n - 1), 0) == Nth(t, n - 1);
    }
  }

  lemma {:induction false} FiredFromList(q: seq<Timer>, f: Timer)
    requires f in Fired(q)
    ensures exists u :: u in q && Fires(u) && f == Counted(u)
  {
    var n := |q| - 1;
    if Fires(q[n]) && f == Counted(q[n]) {
      assert q[n] in q;
    } else {
      FiredFromList(q[..n], f);
      var u :| u in q[..n] && Fires(u) && f == Counted(u);
      assert u in q;
    }
  }

  /** With pairwise distinct timeouts every tick counts every timer once, and tick n sets a periodic timer off exactly
      when n is its first due tick or a whole number of periods after it. */
  lemma PeriodicTimer(q: seq<Timer>, t: Timer, n: nat)
    requires Strict(q) && t in q && t.periodic && t.latch < TWO32 && n > 0
    ensures var before := Ticks(q, n - 1);
      && Turns(Start(before), |before|) == Pass(Ticks(q, n), |Ticks(q, n)|, Ids(before), Fired(before))
      && ((exists f <- Fired(before) :: f.timeout == t.timeout)
          <==> n >= TicksOf(t.latch) && Rem(n - TicksOf(t.latch), TicksOf(Reload(t))) == 0)
  {
    hide Rem, Nth, Turns, Tick, Fired, Fires, Clear, Reload;
    var before := Ticks(q, n - 1);
    TicksHold(q, t, n - 1);
    StrictIsClear(before);
    ClearPass(before);
    FiresEveryPeriod(t, n);
    var u := Nth(t, n - 1);
    TimerTicks(before, u);
    if Fires(u) {
      assert Counted(u) in Fired(before) && Counted(u).timeout == t.timeout;
    }
    if f :| f in Fired(before) && f.timeout == t.timeout {
      FiredFromList(before, f);
      var v :| v in before && Fires(v) && f == Counted(v);
      assert v == u;
    }
  }

  // ---------------------------------------------------------------- timers that go off once

  /** No timer of the list has this timeout. */
  predicate Avoids(q: seq<Timer>, timeout: nat) {
    forall u <- q :: u.timeout != timeout
  }

  lemma {:induction false} TickAvoids(q: seq<Timer>, timeout: nat)
    requires forall u <- q :: u.timeout == timeout ==> !Stays(u)
    ensures Avoids(Tick(q), timeout)
  {
    if q != [] {
      TickAvoids(q[..|q| - 1], timeout);
      assert After(q[|q| - 1]) == [] || q[|q| - 1].timeout != timeout;
    }
  }

  lemma {:induction false} TicksAvoid(q: seq<Timer>, timeout: nat, m: nat, n: nat)
    requires m <= n && Avoids(Ticks(q, m), timeout)
    ensures Avoids(Ticks(q, n), timeout)
    decreases n
  {
    hide Tick;
    if m < n {
      TicksAvoid(q, timeout, m, n - 1);
      TickAvoids(Ticks(q, n - 1), timeout);
    }
  }

  /** The first due tick by Fires. */
  lemma FirstDue(t: Timer, n: nat)
    requires t.latch < TWO32 && n < TicksOf(t.latch)
    ensures Nth(t, n) == t.(latch := Nth(t, n).latch) && (Fires(Nth(t, n)) <==> n + 1 == TicksOf(t.latch))
  {
    hide Rem, Nth, Fires, Reload;
    NthLatch(t, n);
    FiresEveryPeriod(t, n + 1);
    RemStep(0, TicksOf(Reload(t)));
  }

  lemma {:induction false} OneShotWaits(q: seq<Timer>, t: Timer, n: nat)
    requires Strict(q) && t in q && t.latch < TWO32 && n < TicksOf(t.latch)
    ensures Strict(Ticks(q, n)) && Nth(t, n) in Ticks(q, n)
  {
    hide Tick, Fires, Reload, TicksOf;
    if n > 0 {
      OneShotWaits(q, t, n - 1);
      TickStrict(Ticks(q, n - 1));
      FirstDue(t, n - 1);
      TimerTicks(Ticks(q, n - 1), Nth(t, n - 1));
      assert Nth(Nth(t, n - 1), 0) == Nth(t, n - 1);
    }
  }

  lemma OneShotTimer(q: seq<Timer>, t: Timer, n: nat)
    requires Strict(q) && t in q && !t.periodic && t.latch < TWO32 && n > 0
    ensures (exists f <- Fired(Ticks(q, n - 1)) :: f.timeout == t.timeout) <==> n == TicksOf(t.latch)
  {
    hide Nth, Tick, Fired, Fires, TicksOf, Strict;
    var before, due := Ticks(q, n - 1), TicksOf(t.latch);
    if n <= due {
      OneShotWaits(q, t, n - 1);
      FirstDue(t, n - 1);
      TimerTicks(before, Nth(t, n - 1));
      if f :| f in Fired(before) && f.timeout == t.timeout {
        FiredFromList(before, f);
        SameTimeout(before, Nth(t, n - 1), f);
      }
    } else {
      OneShotWaits(q, t, due - 1);
      FirstDue(t, due - 1);
      OneShotGone(Ticks(q, due - 1), Nth(t, due - 1));
      TicksAvoid(q, t.timeout, due, n - 1);
      NoneFires(before, t.timeout);
    }
  }

  lemma SameTimeout(q: seq<Timer>, u: Timer, f: Timer)
    requires Strict(q) && u in q && f.timeout == u.timeout && exists v :: v in q && Fires(v) && f == Counted(v)
    ensures Fires(u)
  {
    hide Fires;
  }

  lemma OneShotGone(q: seq<Timer>, t: Timer)
    requires Strict(q) && t in q && Fires(t) && !t.periodic
    ensures Avoids(Tick(q), t.timeout)
  {
    hide Fires, Tick;
    TickAvoids(q, t.timeout);
  }

  lemma NoneFires(q: seq<Timer>, timeout: nat)
    requires Avoids(q, timeout)
    ensures forall f <- Fired(q) :: f.timeout != timeout
  {
    hide Fires, Fired;
    forall f <- Fired(q)
      ensures f.timeout != timeout
    {
      FiredFromList(q, f);
    }
  }

  // ---------------------------------------------------------------- the period in numbers

  /** d is the timeout in ticks, of which there are 1000 to a second, modulo 2^32, in units of the resolution, rounded
      down. */
  predicate IsLatch(t: Timer, d: nat) {
    d * t.resolution <= (t.timeout * 1000) % 0x1_0000_0000 < d * t.resolution + t.resolution
  }

  /** That is the latch that an install loads. */
  lemma LatchLoaded(t: Timer, d: nat)
    requires t.resolution > 0
    ensures Loaded(t) == t.(latch := Loaded(t).latch)
    ensures Loaded(t).latch == d <==> IsLatch(t, d)
  {
    var x := (t.timeout * 1000) % 0x1_0000_0000;
    assert Loaded(t).latch == Quot(x, t.resolution);
    hide Reload, Quot, Rem;
    QuotRem(x, t.resolution);
    if IsLatch(t, d) {
      QuotRemUnique(t.resolution, d, x - d * t.resolution);
    }
  }

  lemma MultipleOf(n: nat, d: nat)
    requires n > 0 && d > 0
    ensures n % d == 0 <==> n >= d && Rem(n - d, d) == 0
  {
    assert n % d == Rem(n, d);
    hide Rem, Quot;
    if n >= d {
      QuotRem(n - d, d);
      Carry(d, Quot(n - d, d));
      QuotRemUnique(d, Quot(n - d, d) + 1, Rem(n - d, d));
    } else {
      QuotRemUnique(d, 0, n);
    }
  }

  /** A periodic timer that is installed into a list of other timeouts goes off at tick n exactly when n is a multiple
      of the latch it was given; a latch of 0 takes a full turn. */
  lemma InstalledGoesOff(q: seq<Timer>, t: Timer, d: nat, n: nat)
    requires t.periodic && t.resolution > 0 && IsLatch(t, d) && Strict(Install(q, t)) && n > 0
    ensures (exists f <- Fired(Ticks(Install(q, t), n - 1)) :: f.timeout == t.timeout)
            <==> n % (if d == 0 then 0x1_0000_0000 else d) == 0
  {
    LatchLoaded(t, d);
    var u := Loaded(t);
    assert u in Install(q, t) && Reload(u) == u.latch;
    hide Install, Reload, Rem, Strict, Fired, Ticks;
    PeriodicTimer(Install(q, t), u, n);
    MultipleOf(n, TicksOf(d));
  }

  /** With resolution 1 that is every timeout seconds, a second being 1000 ticks. */
  lemma GoesOffEveryTimeout(q: seq<Timer>, t: Timer, n: nat)
    requires t.periodic && t.resolution == 1 && 0 < t.timeout * 1000 < 0x1_0000_0000 && Strict(Install(q, t)) && n > 0
    ensures (exists f <- Fired(Ticks(Install(q, t), n - 1)) :: f.timeout == t.timeout) <==> n % (1000 * t.timeout) == 0
  {
    hide Install, Strict, Fired, Ticks;
    InstalledGoesOff(q, t, t.timeout * 1000, n);
  }

  /** A timer that is not periodic and is installed into a list of other timeouts goes off at the tick that its latch
      says, and never again. */
  lemma InstalledGoesOffOnce(q: seq<Timer>, t: Timer, d: nat, n: nat)
    requires !t.periodic && t.resolution > 0 && IsLatch(t, d) && Strict(Install(q, t)) && n > 0
    ensures (exists f <- Fired(Ticks(Install(q, t), n - 1)) :: f.timeout == t.timeout)
            <==> n == if d == 0 then 0x1_0000_0000 else d
  {
    LatchLoaded(t, d);
    assert Loaded(t) in Install(q, t);
    hide Install, Reload;
    OneShotTimer(Install(q, t), Loaded(t), n);
  }
}
