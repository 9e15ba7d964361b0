/** The loop with which sendto of virgoos/src/network/socket.c:523-549 cuts a message for a stream socket into
    segments. */
module SocketSendto {
  import opened Common
  import opened TcpStream

  const MAX_SEGMENT: nat := 1500 - 40

  /** What tcp_send returns: -1, or how many of the offered bytes it took. */
  datatype Outcome = Fails | Takes(n: nat)

  /** Memory by 32-bit address. */
  type Memory = nat -> Byte

  function Span(mem: Memory, at: int, len: nat): (s: seq<Byte>)
    ensures |s| == len
  {
    seq<Byte>(len, j requires 0 <= j < len => mem(Wrap(at + j)))
  }

  /** The variables of the loop, the bytes that went out and the failures met. */
  datatype Pass = Pass(total: nat, count: nat, out: seq<Byte>, failures: nat)

  /** One pass.  sent is unsigned, so the test for a negative result never fires and -1 is added and subtracted. */
  function Next(mem: Memory, base: nat, p: Pass, o: Outcome): Pass {
    var size := if p.count > MAX_SEGMENT then MAX_SEGMENT else p.count;
    match o
    case Fails => Pass(Wrap(p.total - 1), Wrap(p.count + 1), p.out, p.failures + 1)
    case Takes(n) =>
      var sent := if n < size then n else size;
      Pass(Wrap(p.total + sent), Wrap(p.count - sent), p.out + Span(mem, base + p.total, sent), p.failures)
  }

  /** The loop as far as the outcomes reach; it has ended when count is 0. */
  function Passes(mem: Memory, base: nat, length: nat, os: seq<Outcome>): Pass {
    if os == [] then Pass(0, length, [], 0)
    else
      var p := Passes(mem, base, length, os[..|os| - 1]);
      if p.count == 0 then p else Next(mem, base, p, os[|os| - 1])
  }

  /** total and count always add up to the length, and the bytes out exceed total by the failures. */
  lemma {:induction false} PassesInvariant(mem: Memory, base: nat, length: nat, os: seq<Outcome>)
    requires length < TWO32
    ensures var p := Passes(mem, base, length, os);
      && p.total < TWO32 && p.count < TWO32 && p.failures <= |os|
      && p.total == Wrap(|p.out| - p.failures) && p.count == Wrap(length - (|p.out| - p.failures))
      && (p.failures == 0 ==> |p.out| <= length && p.total == |p.out| && p.out == Span(mem, base, |p.out|))
  {
    if os != [] {
      var p := Passes(mem, base, length, os[..|os| - 1]);
      PassesInvariant(mem, base, length, os[..|os| - 1]);
      if p.count != 0 {
        NextInvariant(mem, base, length, p, os[|os| - 1]);
      }
    }
  }

  lemma NextInvariant(mem: Memory, base: nat, length: nat, p: Pass, o: Outcome)
    requires length < TWO32 && p.total < TWO32 && p.count < TWO32
    requires p.total == Wrap(|p.out| - p.failures) && p.count == Wrap(length - (|p.out| - p.failures))
    requires p.failures == 0 ==> |p.out| <= length && p.total == |p.out| && p.out == Span(mem, base, |p.out|)
    ensures var q := Next(mem, base, p, o);
      && q.total < TWO32 && q.count < TWO32 && q.failures <= p.failures + 1
      && q.total == Wrap(|q.out| - q.failures) && q.count == Wrap(length - (|q.out| - q.failures))
      && (q.failures == 0 ==> |q.out| <= length && q.total == |q.out| && q.out == Span(mem, base, |q.out|))
  {
    hide Wrap, Span;
    var t := |p.out| - p.failures;
    match o
    case Fails =>
      WrapAdd(t, -1);
      WrapAdd(length - t, 1);
    case Takes(n) =>
      var size := if p.count > MAX_SEGMENT then MAX_SEGMENT else p.count;
      var sent := if n < size then n else size;
      WrapAdd(t, sent);
      WrapAdd(length - t, -sent);
      WrapSmall(t);
      WrapSmall(length - t);
      WrapSmall(t + sent);
      SpanConcat(mem, base, |p.out|, sent);
  }

  lemma SpanConcat(mem: Memory, base: nat, a: nat, b: nat)
    ensures Span(mem, base, a) + Span(mem, base + a, b) == Span(mem, base, a + b)
  {
    hide Wrap;
  }

  /** No segment holds more than the 1460 bytes of a full Ethernet frame, and a send takes what it is given or less:
      the rest of the message at total, cut to a segment and to what the send takes. */
  lemma SegmentFits(mem: Memory, base: nat, length: nat, os: seq<Outcome>, k: nat)
    requires k < |os| && Passes(mem, base, length, os[..k]).count != 0
    ensures var p, q := Passes(mem, base, length, os[..k]), Passes(mem, base, length, os[..k + 1]);
      && p.out <= q.out && |q.out| - |p.out| <= 1460
      && (os[k].Fails? ==> q.out == p.out && q.failures == p.failures + 1)
      && (os[k].Takes? ==> |q.out| - |p.out| == Min(os[k].n, Min(p.count, 1460)) && q.failures == p.failures
                           && q.out == p.out + Span(mem, base + p.total, |q.out| - |p.out|))
  {
    hide Passes, Span, Wrap;
    PassesStep(mem, base, length, os, k);
  }

  /** If every send takes all it is given, the message goes out in full segments and one shorter last one. */
  lemma {:induction false} FullSegments(mem: Memory, base: nat, length: nat, os: seq<Outcome>)
    requires length < TWO32 && forall o <- os :: o.Takes? && o.n >= 1460
    ensures Passes(mem, base, length, os).out == Span(mem, base, Min(length, 1460 * |os|))
    ensures Passes(mem, base, length, os).count == length - Min(length, 1460 * |os|)
    ensures Passes(mem, base, length, os).failures == 0
  {
    hide Wrap, Span;
    if os != [] {
      var init := os[..|os| - 1];
      FullSegments(mem, base, length, init);
      PassesInvariant(mem, base, length, init);
      hide Passes;
      FullSegment(mem, base, length, Passes(mem, base, length, init), os[|os| - 1], 1460 * |init|);
    }
  }

  lemma FullSegment(mem: Memory, base: nat, length: nat, p: Pass, o: Outcome, done: nat)
    requires length < TWO32 && o.Takes? && o.n >= 1460 && p.count == length - Min(length, done) && p.failures == 0
    requires p.total == |p.out| && p.out == Span(mem, base, Min(length, done))
    ensures var q := if p.count == 0 then p else Next(mem, base, p, o);
      q == Pass(q.total, length - Min(length, done + 1460), Span(mem, base, Min(length, done + 1460)), 0)
  {
    hide Wrap, Span;
    if p.count != 0 {
      var sent := Min(p.count, 1460);
      SpanConcat(mem, base, done, sent);
      WrapSmall(p.count - sent);
    }
  }

  /** The bytes that sendto puts into segments are the message exactly if no send failed. */
  lemma DeliversExact(mem: Memory, base: nat, length: nat, os: seq<Outcome>)
    requires length < TWO32 && |os| < TWO32 && Passes(mem, base, length, os).count == 0
    ensures var p := Passes(mem, base, length, os);
      p.out == Span(mem, base, length) <==> p.failures == 0
  {
    hide Wrap, Span, Passes;
    PassesInvariant(mem, base, length, os);
    var p := Passes(mem, base, length, os);
    WrapSmall(length - (|p.out| - p.failures));
  }

  /** One failure in the middle: the byte before it goes out twice. */
  lemma FailureRepeatsAByte(mem: Memory)
    ensures var p := Passes(mem, 0x1000, 3, [Takes(2), Fails, Takes(5)]);
      p.count == 0 && p.out == [mem(0x1000), mem(0x1001), mem(0x1001), mem(0x1002)]
  {
    hide Passes;
    var os := [Takes(2), Fails, Takes(5)];
    PassesStart(mem, 0x1000, 3, os);
    PassesStep(mem, 0x1000, 3, os, 0);
    var q1 := Pass(2, 1, [mem(0x1000), mem(0x1001)], 0);
    PairAt(mem, 0x1000);
    PairAt(mem, 0x1001);
    assert Next(mem, 0x1000, Pass(0, 3, [], 0), Takes(2)).out == q1.out;
    assert Passes(mem, 0x1000, 3, os[..1]) == q1;
    PassesStep(mem, 0x1000, 3, os, 1);
    assert Passes(mem, 0x1000, 3, os[..2]) == Pass(1, 2, q1.out, 1);
    PassesStep(mem, 0x1000, 3, os, 2);
    assert os[..3] == os;
    var q3 := Next(mem, 0x1000, Pass(1, 2, q1.out, 1), Takes(5));
    assert q3 == Pass(3, 0, q1.out + Span(mem, 0x1001, 2), 1);
  }

  lemma PairAt(mem: Memory, at: nat)
    requires at + 1 < TWO32
    ensures Span(mem, at, 2) == [mem(at), mem(at + 1)]
  {
    WrapSmall(at + 0);
    WrapSmall(at + 1);
    assert Span(mem, at, 2)[0] == mem(Wrap(at + 0)) && Span(mem, at, 2)[1] == mem(Wrap(at + 1));
  }

  lemma PassesStart(mem: Memory, base: nat, length: nat, os: seq<Outcome>)
    ensures Passes(mem, base, length, os[..0]) == Pass(0, length, [], 0)
  {
  }

  lemma PassesStep(mem: Memory, base: nat, length: nat, os: seq<Outcome>, k: nat)
    requires k < |os|
    ensures var p := Passes(mem, base, length, os[..k]);
      Passes(mem, base, length, os[..k + 1]) == if p.count == 0 then p else Next(mem, base, p, os[k])
  {
    assert os[..k + 1][..k] == os[..k];
  }

  /** sendto on a healthy stream socket, as long as tcp_send answers with os. */
  method Sendto(mem: Memory, base: nat, length: nat, os: seq<Outcome>) returns (done: bool, out: seq<Byte>)
    requires length < TWO32 && |os| < TWO32
    ensures done <==> Passes(mem, base, length, os).count == 0
    ensures out == Passes(mem, base, length, os).out
    ensures done ==> (out == Span(mem, base, length) <==> Passes(mem, base, length, os).failures == 0)
  {
    hide Wrap, Passes, Span;
    var total: nat, count: nat, k: nat := 0, length, 0;
    ghost var failures: nat := 0;
    out := [];
    PassesStart(mem, base, length, os);
    while count > 0 && k < |os|
      invariant k <= |os|
      invariant Passes(mem, base, length, os[..k]) == Pass(total, count, out, failures)
      decreases |os| - k
    {
      PassesStep(mem, base, length, os, k);
      var size := if count > MAX_SEGMENT then MAX_SEGMENT else count;
      match os[k] {
        case Fails =>
          count, total, failures := Wrap(count + 1), Wrap(total - 1), failures + 1;
        case Takes(n) =>
          var sent := if n < size then n else size;
          out := out + Span(mem, base + total, sent);
          count, total := Wrap(count - sent), Wrap(total + sent);
      }
      k := k + 1;
    }
    assert os[..|os|] == os;
    done := count == 0;
    if done {
      PassesStop(mem, base, length, os, k);
      DeliversExact(mem, base, length, os);
    }
  }

  /** After count has reached 0 nothing happens. */
  lemma {:induction false} PassesStop(mem: Memory, base: nat, length: nat, os: seq<Outcome>, k: nat)
    requires k <= |os| && Passes(mem, base, length, os[..k]).count == 0
    ensures Passes(mem, base, length, os) == Passes(mem, base, length, os[..k])
    decreases |os|
  {
    hide Next;
    if k < |os| {
      var init := os[..|os| - 1];
      assert init[..k] == os[..k];
      PassesStop(mem, base, length, init, k);
    } else {
      assert os[..k] == os;
    }
  }
}
