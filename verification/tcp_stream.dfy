/** The sending side of virgoos/src/network/tcp.c: what the code keeps in 32-bit sequence numbers, and the unbounded
    byte streams that these numbers stand for. */
module TcpStream {
  import opened Common

  const MAX_WINDOW: nat := 0x1_0000
  const MAX_TCP_RETRANSMISSIONS: nat := 3

  /** Unsigned 32-bit arithmetic. */
  function Wrap(x: int): (r: nat)
    ensures r < TWO32
  {
    x % TWO32
  }

  // ---------------------------------------------------------------- what the code keeps

  /** this_seqnum, this_acknowledged and peer_win_size of a connected socket. */
  datatype Sock = Sock(seqnum: nat, acked: nat, win: nat)

  /** An entry of the retransmission list: its socket, the sequence number and payload of the packet, and more_times. */
  datatype Segment = Segment(sock: nat, seqnum: nat, data: seq<Byte>, more: int)

  datatype Sender = Sender(socks: seq<Sock>, retrans: seq<Segment>)

  /** What becomes of a retransmission: no interface, no transmit buffer, or sent. */
  datatype Transmit = NoInterface | Busy | Sent

  /** Bytes of a packet that tcp_send_packet lets out. */
  function SendLength(k: Sock, want: nat): nat {
    Min(want, Wrap(k.acked + k.win - k.seqnum))
  }

  /** A data packet of tcp_send_packet that got its transmit buffer; room says whether memory for the retransmission
      entry was found. */
  function Send(s: Sender, i: nat, data: seq<Byte>, room: bool): Sender
    requires i < |s.socks|
  {
    var k := s.socks[i];
    var len := SendLength(k, |data|);
    var socks := s.socks[i := k.(seqnum := Wrap(k.seqnum + len))];
    if len == 0 || !room then Sender(socks, s.retrans)
    else Sender(socks, s.retrans + [Segment(i, k.seqnum, data[..len], MAX_TCP_RETRANSMISSIONS)])
  }

  /** The test of parse_tcp for a segment that an acknowledgement covers. */
  predicate Acknowledges(seg: Segment, i: nat, ack: nat, win: nat) {
    seg.sock == i && Wrap(ack - (seg.seqnum + |seg.data|)) <= win
  }

  function Unacknowledged(q: seq<Segment>, i: nat, ack: nat, win: nat): seq<Segment> {
    if q == [] then []
    else
      var last := q[|q| - 1];
      var rest := Unacknowledged(q[..|q| - 1], i, ack, win);
      if Acknowledges(last, i, ack, win) then rest else rest + [last]
  }

  /** A packet with an acknowledgement number for socket i. */
  function Ack(s: Sender, i: nat, ack: nat): Sender
    requires i < |s.socks|
  {
    var k := s.socks[i];
    if Wrap(ack - k.acked) > k.win then s
    else Sender(s.socks[i := k.(acked := ack)], Unacknowledged(s.retrans, i, ack, k.win))
  }

  function Retried(seg: Segment, t: Transmit): seq<Segment> {
    match t
    case Busy => [seg]
    case NoInterface => []
    case Sent => if seg.more - 1 == 0 then [] else [seg.(more := seg.more - 1)]
  }

  /** tcp_retransmit_timer_proc of entry k. */
  function Expire(s: Sender, k: nat, t: Transmit): Sender
    requires k < |s.retrans|
  {
    s.(retrans := s.retrans[..k] + Retried(s.retrans[k], t) + s.retrans[k + 1..])
  }

  // ---------------------------------------------------------------- the streams behind it

  /** A connection: everything sent on it so far, and how much of it the peer has acknowledged. */
  datatype Conn = Conn(isn: nat, sent: seq<Byte>, una: nat, win: nat)

  /** A segment that was sent: where its data stand in the stream, and how many retransmissions it has left; 0 when it
      was given up, or never queued. */
  datatype Entry = Entry(sock: nat, start: nat, data: seq<Byte>, more: int)

  datatype Streams = Streams(conns: seq<Conn>, hist: seq<Entry>)

  /** A segment awaits its acknowledgement: it reaches beyond what was acknowledged and was not given up. */
  predicate Live(cs: seq<Conn>, e: Entry) {
    e.sock < |cs| && e.more > 0 && e.start + |e.data| > cs[e.sock].una
  }

  function SockOf(c: Conn): Sock {
    Sock(Wrap(c.isn + |c.sent|), Wrap(c.isn + c.una), c.win)
  }

  function SegmentOf(cs: seq<Conn>, e: Entry): Segment
    requires e.sock < |cs|
  {
    Segment(e.sock, Wrap(cs[e.sock].isn + e.start), e.data, e.more)
  }

  /** The segments that await their acknowledgement, in the order of sending. */
  function QueueOf(cs: seq<Conn>, hist: seq<Entry>): seq<Segment> {
    if hist == [] then []
    else
      var e := hist[|hist| - 1];
      var q := QueueOf(cs, hist[..|hist| - 1]);
      if Live(cs, e) then q + [SegmentOf(cs, e)] else q
  }

  /** What the code keeps of the streams. */
  function Image(x: Streams): Sender {
    Sender(seq(|x.conns|, i requires 0 <= i < |x.conns| => SockOf(x.conns[i])), QueueOf(x.conns, x.hist))
  }

  /** Bytes of connection i that the segments of hist carry. */
  function Carried(hist: seq<Entry>, i: nat): nat {
    if hist == [] then 0
    else
      var e := hist[|hist| - 1];
      Carried(hist[..|hist| - 1], i) + if e.sock == i then |e.data| else 0
  }

  /** The bytes in flight fit the peer's window. */
  predicate InWindow(c: Conn) {
    c.una <= |c.sent| <= c.una + c.win && c.win < MAX_WINDOW
  }

  /** Segment k of the history carries its part of the stream and starts where the previous one of its connection
      ended. */
  predicate Placed(cs: seq<Conn>, hist: seq<Entry>, k: nat)
    requires k < |hist|
  {
    var e := hist[k];
    && e.sock < |cs| && 0 < |e.data|
    && e.start == Carried(hist[..k], e.sock)
    && e.start + |e.data| <= |cs[e.sock].sent|
    && e.data == cs[e.sock].sent[e.start..e.start + |e.data|]
  }

  ghost predicate Sound(x: Streams) {
    && (forall i :: 0 <= i < |x.conns| ==> InWindow(x.conns[i]))
    && (forall k :: 0 <= k < |x.hist| ==> Placed(x.conns, x.hist, k))
    && (forall i :: 0 <= i < |x.conns| ==> Carried(x.hist, i) == |x.conns[i].sent|)
  }

  // ---------------------------------------------------------------- steps of the streams

  function StreamSend(x: Streams, i: nat, data: seq<Byte>, room: bool): Streams
    requires i < |x.conns|
  {
    var c := x.conns[i];
    var len := Min(|data|, if |c.sent| <= c.una + c.win then c.una + c.win - |c.sent| else 0);
    if len == 0 then x
    else Streams(x.conns[i := c.(sent := c.sent + data[..len])],
                 x.hist + [Entry(i, |c.sent|, data[..len], if room then MAX_TCP_RETRANSMISSIONS else 0)])
  }

  /** An acknowledgement of everything before position a. */
  function StreamAck(x: Streams, i: nat, a: nat): Streams
    requires i < |x.conns|
  {
    if a < x.conns[i].una then x else x.(conns := x.conns[i := x.conns[i].(una := a)])
  }

  /** The entry after a retransmission. */
  function Spent(e: Entry, t: Transmit): Entry {
    match t
    case Busy => e
    case NoInterface => e.(more := 0)
    case Sent => e.(more := e.more - 1)
  }

  /** The retransmission of the k-th segment that awaits its acknowledgement. */
  function StreamExpire(cs: seq<Conn>, hist: seq<Entry>, k: nat, t: Transmit): (r: seq<Entry>)
    requires k < |QueueOf(cs, hist)|
    ensures |r| == |hist|
  {
    var n := |hist| - 1;
    if k < |QueueOf(cs, hist[..n])| then StreamExpire(cs, hist[..n], k, t) + [hist[n]]
    else hist[..n] + [Spent(hist[n], t)]
  }

  // ---------------------------------------------------------------- sequence numbers

  /** Differences of sequence numbers are differences of positions. */
  lemma WrapDifference(isn: int, a: int, b: int)
    ensures Wrap(Wrap(isn + a) - Wrap(isn + b)) == Wrap(a - b)
  {
  }

  lemma WrapSmall(x: int)
    ensures 0 <= x < TWO32 ==> Wrap(x) == x
    ensures 0 <= x + TWO32 < TWO32 ==> Wrap(x) == x + TWO32
  {
  }

  lemma WrapAdd(x: int, y: int)
    ensures Wrap(Wrap(x) + y) == Wrap(x + y)
  {
  }

  /** The wrapping test for an acknowledged segment decides the order of the positions. */
  lemma TestIsOrder(c: Conn, end: nat, a: nat)
    requires c.win < MAX_WINDOW && c.una <= a <= c.una + c.win && c.una < end <= c.una + c.win
    ensures Wrap(Wrap(c.isn + a) - Wrap(c.isn + end)) <= c.win <==> end <= a
  {
    hide Wrap;
    WrapDifference(c.isn, a, end);
    WrapSmall(a - end);
  }

  // ---------------------------------------------------------------- sending

  lemma SendSound(x: Streams, i: nat, data: seq<Byte>, room: bool)
    requires Sound(x) && i < |x.conns|
    ensures Sound(StreamSend(x, i, data, room))
  {
    var y := StreamSend(x, i, data, room);
    if y != x {
      var n := |x.hist|;
      assert y.hist[..n] == x.hist;
      forall k | 0 <= k <= n
        ensures Placed(y.conns, y.hist, k)
      {
        if k < n {
          assert Placed(x.conns, x.hist, k) && y.hist[..k] == x.hist[..k];
        } else {
          assert Carried(x.hist, i) == |x.conns[i].sent|;
        }
      }
    }
  }

  /** A longer stream leaves the queue. */
  lemma {:induction false} QueueAfterSending(cs: seq<Conn>, cs': seq<Conn>, hist: seq<Entry>)
    requires |cs| == |cs'| && forall j :: 0 <= j < |cs| ==> cs'[j].isn == cs[j].isn && cs'[j].una == cs[j].una
    ensures QueueOf(cs', hist) == QueueOf(cs, hist)
  {
    if hist != [] {
      QueueAfterSending(cs, cs', hist[..|hist| - 1]);
    }
  }

  /** allowed_send is the room in the window. */
  lemma AllowedToSend(c: Conn)
    requires InWindow(c)
    ensures Wrap(Wrap(c.isn + c.una) + c.win - Wrap(c.isn + |c.sent|)) == c.una + c.win - |c.sent|
  {
  }

  /** tcp_send_packet does to its numbers what it should do to the streams. */
  lemma SendRefines(x: Streams, i: nat, data: seq<Byte>, room: bool)
    requires Sound(x) && i < |x.conns|
    ensures Image(StreamSend(x, i, data, room)) == Send(Image(x), i, data, room)
  {
    hide Wrap;
    var c := x.conns[i];
    assert InWindow(c);
    AllowedToSend(c);
    var len := Min(|data|, c.una + c.win - |c.sent|);
    WrapAdd(c.isn + |c.sent|, len);
    var y := StreamSend(x, i, data, room);
    if len > 0 {
      QueueAfterSending(x.conns, y.conns, x.hist);
      assert y.hist[..|x.hist|] == x.hist;
    }
  }

  /** A send moves the front of the data, all of it unless it fills the peer's window, and nothing of any other
      connection; what went out is queued for three retransmissions if there was memory for it. */
  lemma SendTakesWhatFits(x: Streams, i: nat, data: seq<Byte>, room: bool)
    requires Sound(x) && i < |x.conns|
    ensures var c, y := x.conns[i], StreamSend(x, i, data, room);
      && |y.conns| == |x.conns|
      && var n := |y.conns[i].sent| - |c.sent|;
      && 0 <= n <= |data| && (n == |data| || |c.sent| + n == c.una + c.win)
      && y.conns == x.conns[i := Conn(c.isn, c.sent + data[..n], c.una, c.win)]
      && y.hist == x.hist + if n == 0 then [] else [Entry(i, |c.sent|, data[..n], if room then 3 else 0)]
  {
    assert InWindow(x.conns[i]);
    assert data[..0] == [] && x.conns[i].sent + [] == x.conns[i].sent;
  }

  // ---------------------------------------------------------------- acknowledgements

  lemma UnacknowledgedOfMore(q: seq<Segment>, seg: Segment, i: nat, ack: nat, win: nat)
    ensures Unacknowledged(q + [seg], i, ack, win)
            == if Acknowledges(seg, i, ack, win) then Unacknowledged(q, i, ack, win)
               else Unacknowledged(q, i, ack, win) + [seg]
  {
    assert (q + [seg])[..|q|] == q;
  }

  /** The end of a segment, as the code computes it. */
  lemma TestOfSegment(c: Conn, start: nat, len: nat, a: nat)
    ensures Wrap(Wrap(c.isn + a) - (Wrap(c.isn + start) + len)) == Wrap(Wrap(c.isn + a) - Wrap(c.isn + (start + len)))
  {
  }

  /** The test of the code for a waiting segment. */
  lemma AcknowledgesIs(cs: seq<Conn>, e: Entry, i: nat, a: nat)
    requires i < |cs| && cs[i].win < MAX_WINDOW && cs[i].una <= a <= cs[i].una + cs[i].win && Live(cs, e)
    requires e.sock == i ==> e.start + |e.data| <= cs[i].una + cs[i].win
    ensures Acknowledges(SegmentOf(cs, e), i, Wrap(cs[i].isn + a), cs[i].win) <==>
            e.sock == i && e.start + |e.data| <= a
  {
    hide Wrap;
    if e.sock == i {
      TestIsOrder(cs[i], e.start + |e.data|, a);
      TestOfSegment(cs[i], e.start, |e.data|, a);
    }
  }

  /** Acknowledging everything before position a removes from the queue exactly the segments that end by a. */
  lemma {:induction false} QueueAfterAck(cs: seq<Conn>, hist: seq<Entry>, i: nat, a: nat)
    requires i < |cs| && cs[i].win < MAX_WINDOW && cs[i].una <= a <= cs[i].una + cs[i].win
    requires forall k :: 0 <= k < |hist| && hist[k].sock == i ==>
      hist[k].start + |hist[k].data| <= cs[i].una + cs[i].win
    ensures QueueOf(cs[i := cs[i].(una := a)], hist)
            == Unacknowledged(QueueOf(cs, hist), i, Wrap(cs[i].isn + a), cs[i].win)
  {
    hide Wrap, Acknowledges;
    if hist != [] {
      var init, e := hist[..|hist| - 1], hist[|hist| - 1];
      QueueAfterAck(cs, init, i, a);
      if Live(cs, e) {
        UnacknowledgedOfMore(QueueOf(cs, init), SegmentOf(cs, e), i, Wrap(cs[i].isn + a), cs[i].win);
        AcknowledgesIs(cs, e, i, a);
      }
    }
  }

  /** The position that an acknowledgement number in the window stands for. */
  function AckPosition(c: Conn, ack: nat): nat {
    c.una + Wrap(ack - Wrap(c.isn + c.una))
  }

  lemma AckPositionIs(c: Conn, ack: nat)
    requires ack < TWO32
    ensures Wrap(c.isn + AckPosition(c, ack)) == ack
  {
  }

  /** Every acknowledgement number either is out of the window, and then ignored, or stands for a position, and then has
      the effect of acknowledging it; the state stays sound exactly if that position was sent. */
  lemma AckExact(x: Streams, i: nat, ack: nat)
    requires Sound(x) && i < |x.conns| && ack < TWO32
    ensures var a := AckPosition(x.conns[i], ack);
      && Ack(Image(x), i, ack) == (if a - x.conns[i].una > x.conns[i].win then Image(x) else Image(StreamAck(x, i, a)))
      && (Sound(StreamAck(x, i, a)) <==> a <= |x.conns[i].sent|)
  {
    hide Wrap, QueueOf, Unacknowledged;
    var c := x.conns[i];
    var a := AckPosition(c, ack);
    AckPositionIs(c, ack);
    AckSound(x, i, a);
    EndsInWindow(x, i);
    hide Sound;
    if a - c.una <= c.win {
      QueueAfterAck(x.conns, x.hist, i, a);
    }
  }

  lemma EndsInWindow(x: Streams, i: nat)
    requires Sound(x) && i < |x.conns|
    ensures InWindow(x.conns[i])
    ensures forall k :: 0 <= k < |x.hist| && x.hist[k].sock == i ==>
      x.hist[k].start + |x.hist[k].data| <= x.conns[i].una + x.conns[i].win
  {
    hide Carried;
    assert InWindow(x.conns[i]);
    forall k | 0 <= k < |x.hist| && x.hist[k].sock == i
      ensures x.hist[k].start + |x.hist[k].data| <= x.conns[i].una + x.conns[i].win
    {
      assert Placed(x.conns, x.hist, k);
    }
  }

  lemma AckSound(x: Streams, i: nat, a: nat)
    requires Sound(x) && i < |x.conns| && a >= x.conns[i].una
    ensures Sound(StreamAck(x, i, a)) <==> a <= |x.conns[i].sent|
  {
    var y := StreamAck(x, i, a);
    assert InWindow(x.conns[i]);
    forall k | 0 <= k < |x.hist|
      ensures Placed(y.conns, y.hist, k)
    {
      assert Placed(x.conns, x.hist, k);
    }
    assert InWindow(y.conns[i]) <==> a <= |x.conns[i].sent|;
  }

  /** An acknowledgement of bytes that were sent moves the mark of its connection there, leaves what is waiting behind
      that mark, and touches no other connection. */
  lemma AckTakesEffect(x: Streams, i: nat, a: nat)
    requires Sound(x) && i < |x.conns| && x.conns[i].una <= a <= |x.conns[i].sent|
    ensures var c, s := x.conns[i], Image(x);
      Ack(s, i, Wrap(c.isn + a))
      == Sender(s.socks[i := Sock(s.socks[i].seqnum, Wrap(c.isn + a), c.win)],
                QueueOf(x.conns[i := c.(una := a)], x.hist))
  {
    hide Wrap, QueueOf, Unacknowledged;
    var c := x.conns[i];
    EndsInWindow(x, i);
    hide Sound;
    WrapDifference(c.isn, a, c.una);
    WrapSmall(a - c.una);
    QueueAfterAck(x.conns, x.hist, i, a);
  }

  /** An acknowledgement of all that was sent leaves no segment of its connection waiting. */
  lemma AckOfAllClears(x: Streams, i: nat)
    requires Sound(x) && i < |x.conns|
    ensures forall seg <- Ack(Image(x), i, Wrap(x.conns[i].isn + |x.conns[i].sent|)).retrans :: seg.sock != i
  {
    hide Wrap, QueueOf, Carried, Ack;
    var c := x.conns[i];
    assert InWindow(c);
    AckTakesEffect(x, i, |c.sent|);
    forall k | 0 <= k < |x.hist|
      ensures Placed(x.conns, x.hist, k)
    {
    }
    NoneWaits(x.conns, x.conns[i := c.(una := |c.sent|)], x.hist, i);
  }

  lemma {:induction false} NoneWaits(cs: seq<Conn>, cs': seq<Conn>, hist: seq<Entry>, i: nat)
    requires i < |cs| == |cs'| && cs'[i].una == |cs[i].sent|
    requires forall k :: 0 <= k < |hist| ==> Placed(cs, hist, k)
    ensures forall seg <- QueueOf(cs', hist) :: seg.sock != i
  {
    hide Carried;
    if hist != [] {
      var n := |hist| - 1;
      PrefixPlaced(cs, hist, hist[..n]);
      NoneWaits(cs, cs', hist[..n], i);
      assert Placed(cs, hist, n);
    }
  }

  /** An acknowledgement of bytes never sent makes the code open the window wider than the peer's, and no other does. */
  lemma WindowAfterAck(x: Streams, i: nat, ack: nat)
    requires Sound(x) && i < |x.conns| && ack < TWO32
    ensures var s := Ack(Image(x), i, ack).socks[i];
      var a := AckPosition(x.conns[i], ack);
      Wrap(s.acked + s.win - s.seqnum) <= s.win <==> a <= |x.conns[i].sent| || a - x.conns[i].una > x.conns[i].win
  {
    hide QueueOf, Unacknowledged, Carried, Placed;
    assert InWindow(x.conns[i]);
    hide Sound;
    WindowOfSock(x.conns[i], ack);
  }

  lemma WindowOfSock(c: Conn, ack: nat)
    requires InWindow(c) && ack < TWO32
    ensures var k, a := SockOf(c), AckPosition(c, ack);
      var acked := if Wrap(ack - k.acked) > k.win then k.acked else ack;
      Wrap(acked + k.win - k.seqnum) <= k.win <==> a <= |c.sent| || a - c.una > c.win
  {
    hide Wrap;
    AllowedToSend(c);
    AckPositionIs(c, ack);
    if AckPosition(c, ack) - c.una <= c.win {
      RoomAfterAck(c, AckPosition(c, ack));
    }
  }

  lemma RoomAfterAck(c: Conn, a: nat)
    requires InWindow(c) && c.una <= a <= c.una + c.win
    ensures Wrap(Wrap(c.isn + a) + c.win - Wrap(c.isn + |c.sent|)) == a + c.win - |c.sent|
  {
    var x, y := c.isn + a, c.isn + |c.sent|;
    var turns := y / TWO32 - x / TWO32;
    assert Wrap(x) + c.win - Wrap(y) == a + c.win - |c.sent| + turns * TWO32;
    WrapIs(Wrap(x) + c.win - Wrap(y), a + c.win - |c.sent|, turns);
  }

  lemma WrapIs(x: int, r: nat, turns: int)
    requires r < TWO32 && x == r + turns * TWO32
    ensures Wrap(x) == r
  {
  }

  // ---------------------------------------------------------------- retransmissions

  lemma {:induction false} QueueAfterExpire(cs: seq<Conn>, hist: seq<Entry>, k: nat, t: Transmit)
    requires k < |QueueOf(cs, hist)|
    ensures QueueOf(cs, StreamExpire(cs, hist, k, t))
            == QueueOf(cs, hist)[..k] + Retried(QueueOf(cs, hist)[k], t) + QueueOf(cs, hist)[k + 1..]
  {
    var n := |hist| - 1;
    var q := QueueOf(cs, hist[..n]);
    if k < |q| {
      QueueAfterExpire(cs, hist[..n], k, t);
      var h := StreamExpire(cs, hist[..n], k, t);
      assert (h + [hist[n]])[..n] == h;
      if Live(cs, hist[n]) {
        RetriedInside(q, SegmentOf(cs, hist[n]), k, t);
      }
    } else {
      hide Retried, Spent;
      SpentIsRetried(cs, hist[n], t);
      var e := Spent(hist[n], t);
      assert (hist[..n] + [e])[..n] == hist[..n];
      assert QueueOf(cs, hist) == q + [SegmentOf(cs, hist[n])];
      assert (q + [SegmentOf(cs, hist[n])])[..k] == q;
    }
  }

  /** n timeouts of entry k whose packet goes out again. */
  function Resent(s: Sender, k: nat, n: nat): Sender {
    if n == 0 then s
    else
      var r := Resent(s, k, n - 1);
      if k < |r.retrans| then Expire(r, k, Sent) else r
  }

  /** A queued segment stays in its place for all but the last of the retransmissions it has left, and no longer. */
  lemma {:induction false} RetriesExactly(s: Sender, k: nat, n: nat)
    requires k < |s.retrans| && n <= s.retrans[k].more && s.retrans[k].more > 0
    ensures n < s.retrans[k].more ==>
      Resent(s, k, n) == Sender(s.socks, s.retrans[k := s.retrans[k].(more := s.retrans[k].more - n)])
    ensures n == s.retrans[k].more ==> Resent(s, k, n) == Sender(s.socks, s.retrans[..k] + s.retrans[k + 1..])
  {
    hide Expire;
    if n == 0 {
      assert s.retrans[k := s.retrans[k]] == s.retrans;
    } else {
      RetriesExactly(s, k, n - 1);
      RetryOnce(s, k, n - 1);
    }
  }

  lemma RetryOnce(s: Sender, k: nat, n: nat)
    requires k < |s.retrans| && n < s.retrans[k].more
    ensures var seg := s.retrans[k];
      Expire(Sender(s.socks, s.retrans[k := seg.(more := seg.more - n)]), k, Sent)
      == Sender(s.socks, if n + 1 < seg.more then s.retrans[k := seg.(more := seg.more - (n + 1))]
                         else s.retrans[..k] + s.retrans[k + 1..])
  {
    var seg := s.retrans[k];
    var q := s.retrans[k := seg.(more := seg.more - n)];
    assert q[..k] == s.retrans[..k] && q[k + 1..] == s.retrans[k + 1..];
    if n + 1 < seg.more {
      var one := seg.(more := seg.more - (n + 1));
      assert s.retrans[k := one] == s.retrans[..k] + [one] + s.retrans[k + 1..];
    }
  }

  /** A timeout that finds no transmit buffer changes nothing, and one that finds no interface gives the segment up. */
  lemma UnsentRetries(s: Sender, k: nat)
    requires k < |s.retrans|
    ensures Expire(s, k, Busy) == s
    ensures Expire(s, k, NoInterface) == Sender(s.socks, s.retrans[..k] + s.retrans[k + 1..])
  {
    assert s.retrans[..k] + [s.retrans[k]] + s.retrans[k + 1..] == s.retrans;
  }

  lemma RetriedInside(q: seq<Segment>, seg: Segment, k: nat, t: Transmit)
    requires k < |q|
    ensures (q + [seg])[..k] + Retried((q + [seg])[k], t) + (q + [seg])[k + 1..]
            == q[..k] + Retried(q[k], t) + q[k + 1..] + [seg]
  {
    hide Retried;
  }

  lemma SpentIsRetried(cs: seq<Conn>, e: Entry, t: Transmit)
    requires Live(cs, e)
    ensures Retried(SegmentOf(cs, e), t) == if Live(cs, Spent(e, t)) then [SegmentOf(cs, Spent(e, t))] else []
  {
  }

  /** A retransmission touches more_times only. */
  lemma {:induction false} ExpireKeepsPlaces(cs: seq<Conn>, hist: seq<Entry>, k: nat, t: Transmit, j: nat)
    requires k < |QueueOf(cs, hist)| && j < |hist|
    ensures var e := StreamExpire(cs, hist, k, t)[j]; e == hist[j].(more := e.more)
  {
    var n := |hist| - 1;
    if k < |QueueOf(cs, hist[..n])| && j < n {
      ExpireKeepsPlaces(cs, hist[..n], k, t, j);
    }
  }

  lemma {:induction false} SameCarried(h: seq<Entry>, h': seq<Entry>, i: nat)
    requires |h| == |h'| && forall j :: 0 <= j < |h| ==> h'[j] == h[j].(more := h'[j].more)
    ensures Carried(h', i) == Carried(h, i)
  {
    if h != [] {
      var n := |h| - 1;
      assert h'[n] == h[n].(more := h'[n].more);
      SameCarried(h[..n], h'[..n], i);
    }
  }

  lemma ExpireSound(x: Streams, k: nat, t: Transmit)
    requires Sound(x) && k < |QueueOf(x.conns, x.hist)|
    ensures Sound(x.(hist := StreamExpire(x.conns, x.hist, k, t)))
  {
    hide QueueOf, StreamExpire, Carried;
    var h := StreamExpire(x.conns, x.hist, k, t);
    forall j | 0 <= j < |h|
      ensures h[j] == x.hist[j].(more := h[j].more)
    {
      ExpireKeepsPlaces(x.conns, x.hist, k, t, j);
    }
    forall j | 0 <= j < |h|
      ensures Placed(x.conns, h, j)
    {
      assert Placed(x.conns, x.hist, j);
      SameCarried(x.hist[..j], h[..j], h[j].sock);
    }
    forall i | 0 <= i < |x.conns|
      ensures Carried(h, i) == |x.conns[i].sent|
    {
      SameCarried(x.hist, h, i);
    }
  }

  // ---------------------------------------------------------------- new connections

  /** accept: the new socket starts with everything acknowledged that its handshake has used up. */
  function Accept(s: Sender, seqnum: nat, win: nat): Sender {
    s.(socks := s.socks + [Sock(seqnum, seqnum, win)])
  }

  function StreamAccept(x: Streams, seqnum: nat, win: nat): Streams {
    x.(conns := x.conns + [Conn(seqnum, [], 0, win)])
  }

  lemma {:induction false} QueueAfterAccept(cs: seq<Conn>, c: Conn, hist: seq<Entry>)
    requires forall k :: 0 <= k < |hist| ==> hist[k].sock < |cs|
    ensures QueueOf(cs + [c], hist) == QueueOf(cs, hist) && Carried(hist, |cs|) == 0
  {
    if hist != [] {
      QueueAfterAccept(cs, c, hist[..|hist| - 1]);
    }
  }

  lemma AcceptRefines(x: Streams, seqnum: nat, win: nat)
    requires Sound(x) && seqnum < TWO32 && win < MAX_WINDOW
    ensures Sound(StreamAccept(x, seqnum, win)) && Image(StreamAccept(x, seqnum, win)) == Accept(Image(x), seqnum, win)
  {
    hide Wrap;
    var c := Conn(seqnum, [], 0, win);
    var y := StreamAccept(x, seqnum, win);
    forall k | 0 <= k < |x.hist|
      ensures Placed(y.conns, x.hist, k) && x.hist[k].sock < |x.conns|
    {
      assert Placed(x.conns, x.hist, k);
    }
    QueueAfterAccept(x.conns, c, x.hist);
    WrapSmall(seqnum);
    assert SockOf(c) == Sock(seqnum, seqnum, win);
  }

  // ---------------------------------------------------------------- runs

  datatype Event =
    | Open(seqnum: nat, win: nat)
    | SendOn(i: nat, data: seq<Byte>, room: bool)
    | AckOn(i: nat, ack: nat)
    | Timeout(k: nat, t: Transmit)

  /** The step makes sense, and the peer acknowledges only what was sent: any number out of the window is harmless. */
  predicate Honest(x: Streams, e: Event) {
    match e
    case Open(seqnum, win) => seqnum < TWO32 && win < MAX_WINDOW
    case SendOn(i, _, _) => i < |x.conns|
    case AckOn(i, ack) =>
      && i < |x.conns| && ack < TWO32
      && var c := x.conns[i];
      AckPosition(c, ack) <= |c.sent| || AckPosition(c, ack) - c.una > c.win
    case Timeout(k, _) => k < |QueueOf(x.conns, x.hist)|
  }

  function StreamStep(x: Streams, e: Event): Streams
    requires Honest(x, e)
  {
    match e
    case Open(seqnum, win) => StreamAccept(x, seqnum, win)
    case SendOn(i, data, room) => StreamSend(x, i, data, room)
    case AckOn(i, ack) =>
      var c := x.conns[i];
      if AckPosition(c, ack) - c.una > c.win then x else StreamAck(x, i, AckPosition(c, ack))
    case Timeout(k, t) => x.(hist := StreamExpire(x.conns, x.hist, k, t))
  }

  /** The code's step; events that name no socket or entry do nothing. */
  function CodeStep(s: Sender, e: Event): Sender {
    match e
    case Open(seqnum, win) => Accept(s, seqnum, win)
    case SendOn(i, data, room) => if i < |s.socks| then Send(s, i, data, room) else s
    case AckOn(i, ack) => if i < |s.socks| then Ack(s, i, ack) else s
    case Timeout(k, t) => if k < |s.retrans| then Expire(s, k, t) else s
  }

  function CodeRun(s: Sender, es: seq<Event>): Sender {
    if es == [] then s else CodeStep(CodeRun(s, es[..|es| - 1]), es[|es| - 1])
  }

  function StreamRun(x: Streams, es: seq<Event>): Streams {
    if es == [] then x
    else
      var z, e := StreamRun(x, es[..|es| - 1]), es[|es| - 1];
      if Honest(z, e) then StreamStep(z, e) else z
  }

  predicate HonestRun(x: Streams, es: seq<Event>) {
    es == [] || (HonestRun(x, es[..|es| - 1]) && Honest(StreamRun(x, es[..|es| - 1]), es[|es| - 1]))
  }

  lemma StepRefines(x: Streams, e: Event)
    requires Sound(x) && Honest(x, e)
    ensures Sound(StreamStep(x, e)) && Image(StreamStep(x, e)) == CodeStep(Image(x), e)
  {
    hide Wrap, Sound, QueueOf, Placed, StreamExpire, AckPosition, StreamSend, Send, StreamAck, Ack, StreamAccept;
    hide Accept;
    match e
    case Open(seqnum, win) =>
      AcceptRefines(x, seqnum, win);
    case SendOn(i, data, room) =>
      SendSound(x, i, data, room);
      SendRefines(x, i, data, room);
    case AckOn(i, ack) =>
      AckExact(x, i, ack);
    case Timeout(k, t) =>
      ExpireSound(x, k, t);
      QueueAfterExpire(x.conns, x.hist, k, t);
  }

  /** In every honest run the code's state is the image of sound streams. */
  lemma {:induction false} RunRefines(x: Streams, es: seq<Event>)
    requires Sound(x) && HonestRun(x, es)
    ensures Sound(StreamRun(x, es)) && Image(StreamRun(x, es)) == CodeRun(Image(x), es)
  {
    hide Sound, Image, Honest, StreamStep, CodeStep;
    if es != [] {
      RunRefines(x, es[..|es| - 1]);
      StepRefines(StreamRun(x, es[..|es| - 1]), es[|es| - 1]);
    }
  }

  /** In every honest run, wrap-around or not, the bytes in flight fit the window, and the code can tell how many. */
  lemma FlightFitsWindow(x: Streams, es: seq<Event>, i: nat)
    requires Sound(x) && HonestRun(x, es) && i < |StreamRun(x, es).conns|
    ensures var s, c := CodeRun(Image(x), es).socks, StreamRun(x, es).conns[i];
      i < |s| && Wrap(s[i].seqnum - s[i].acked) == |c.sent| - c.una <= s[i].win
  {
    hide *;
    RunRefines(x, es);
    FlightOfImage(StreamRun(x, es), i);
  }

  lemma FlightOfImage(y: Streams, i: nat)
    requires Sound(y) && i < |y.conns|
    ensures var s, c := Image(y).socks, y.conns[i];
      i < |s| && Wrap(s[i].seqnum - s[i].acked) == |c.sent| - c.una <= s[i].win
  {
    hide Wrap, Placed, Carried, QueueOf;
    assert InWindow(y.conns[i]);
    FlightOf(y.conns[i]);
  }

  lemma FlightOf(c: Conn)
    requires InWindow(c)
    ensures Wrap(Wrap(c.isn + |c.sent|) - Wrap(c.isn + c.una)) == |c.sent| - c.una
  {
  }

  // ---------------------------------------------------------------- what the queue covers

  /** The payloads of the queue for one socket. */
  function QueuedData(q: seq<Segment>, i: nat): seq<Byte> {
    if q == [] then []
    else if q[|q| - 1].sock == i then QueuedData(q[..|q| - 1], i) + q[|q| - 1].data
    else QueuedData(q[..|q| - 1], i)
  }

  /** Where the first segment that reaches beyond una starts. */
  function Reach(hist: seq<Entry>, i: nat, una: nat): nat {
    if hist == [] then 0
    else
      var e := hist[|hist| - 1];
      Reach(hist[..|hist| - 1], i, una) + if e.sock == i && e.start + |e.data| <= una then |e.data| else 0
  }

  /** No segment of connection i that still awaits its acknowledgement was given up. */
  predicate NoneGivenUp(cs: seq<Conn>, hist: seq<Entry>, i: nat)
    requires i < |cs|
  {
    forall k :: 0 <= k < |hist| && hist[k].sock == i && hist[k].start + |hist[k].data| > cs[i].una ==> hist[k].more > 0
  }

  lemma QueuedDataOfMore(cs: seq<Conn>, hist: seq<Entry>, i: nat)
    requires hist != []
    ensures var e, q := hist[|hist| - 1], QueueOf(cs, hist[..|hist| - 1]);
      QueuedData(QueueOf(cs, hist), i)
      == if Live(cs, e) && e.sock == i then QueuedData(q, i) + e.data else QueuedData(q, i)
  {
    var e, q := hist[|hist| - 1], QueueOf(cs, hist[..|hist| - 1]);
    if Live(cs, e) {
      assert (q + [SegmentOf(cs, e)])[..|q|] == q;
    }
  }

  lemma PrefixPlaced(cs: seq<Conn>, hist: seq<Entry>, init: seq<Entry>)
    requires init <= hist && forall k :: 0 <= k < |hist| ==> Placed(cs, hist, k)
    ensures forall k :: 0 <= k < |init| ==> Placed(cs, init, k)
  {
    hide Carried;
    forall k | 0 <= k < |init|
      ensures Placed(cs, init, k)
    {
      assert Placed(cs, hist, k) && init[..k] == hist[..k];
    }
  }

  /** The queue of connection i holds the stretch of its stream between two of its bytes. */
  predicate Covers(cs: seq<Conn>, hist: seq<Entry>, i: nat)
    requires i < |cs|
  {
    var f, c := Reach(hist, i, cs[i].una), Carried(hist, i);
    && f <= c <= |cs[i].sent| && f <= cs[i].una && (c <= cs[i].una ==> f == c)
    && QueuedData(QueueOf(cs, hist), i) == cs[i].sent[f..c]
  }

  lemma ReachOfMore(hist: seq<Entry>, i: nat, una: nat)
    requires hist != []
    ensures var e, init := hist[|hist| - 1], hist[..|hist| - 1];
      && Carried(hist, i) == Carried(init, i) + (if e.sock == i then |e.data| else 0)
      && Reach(hist, i, una) == Reach(init, i, una) + if e.sock == i && e.start + |e.data| <= una then |e.data| else 0
  {
  }

  lemma PlacedAtTheEnd(cs: seq<Conn>, hist: seq<Entry>)
    requires hist != [] && Placed(cs, hist, |hist| - 1)
    ensures var e := hist[|hist| - 1];
      && e.sock < |cs| && e.start == Carried(hist[..|hist| - 1], e.sock)
      && e.start + |e.data| <= |cs[e.sock].sent| && e.data == cs[e.sock].sent[e.start..e.start + |e.data|]
  {
  }

  lemma CoversNext(cs: seq<Conn>, hist: seq<Entry>, i: nat)
    requires i < |cs| && hist != [] && Covers(cs, hist[..|hist| - 1], i) && Placed(cs, hist, |hist| - 1)
    requires var e := hist[|hist| - 1]; e.sock == i && e.start + |e.data| > cs[i].una ==> e.more > 0
    ensures Covers(cs, hist, i)
  {
    hide QueueOf, QueuedData, Reach, Carried, Placed, SegmentOf, Wrap;
    var n := |hist| - 1;
    var e, f, c := hist[n], Reach(hist[..n], i, cs[i].una), Carried(hist[..n], i);
    PlacedAtTheEnd(cs, hist);
    QueuedDataOfMore(cs, hist, i);
    ReachOfMore(hist, i, cs[i].una);
    if e.sock == i {
      StretchGrows(cs[i].sent, cs[i].una, f, c, e.data, QueuedData(QueueOf(cs, hist[..n]), i));
    }
  }

  lemma StretchGrows(sent: seq<Byte>, una: nat, f: nat, c: nat, data: seq<Byte>, held: seq<Byte>)
    requires f <= c && c + |data| <= |sent| && f <= una && (c <= una ==> f == c)
    requires held == sent[f..c] && data == sent[c..c + |data|]
    ensures c + |data| <= una ==> f + |data| == c + |data| && held == sent[c + |data|..c + |data|]
    ensures c + |data| > una ==> held + data == sent[f..c + |data|]
  {
  }

  lemma {:induction false} QueueCoversPrefix(cs: seq<Conn>, hist: seq<Entry>, i: nat)
    requires i < |cs| && NoneGivenUp(cs, hist, i) && forall k :: 0 <= k < |hist| ==> Placed(cs, hist, k)
    ensures Covers(cs, hist, i)
  {
    hide QueueOf, QueuedData;
    if hist == [] {
      EmptyCovers(cs, i);
    } else {
      var n := |hist| - 1;
      PrefixPlaced(cs, hist, hist[..n]);
      QueueCoversPrefix(cs, hist[..n], i);
      hide Covers;
      CoversNext(cs, hist, i);
    }
  }

  lemma EmptyCovers(cs: seq<Conn>, i: nat)
    requires i < |cs|
    ensures QueuedData(QueueOf(cs, []), i) == [] && cs[i].sent[0..0] == []
  {
  }

  /** When nothing was given up, the queue of a connection is one stretch of its stream that ends where the stream
      ends and holds every unacknowledged byte. */
  lemma QueueCoversUnacknowledged(x: Streams, i: nat)
    requires Sound(x) && i < |x.conns| && NoneGivenUp(x.conns, x.hist, i)
    ensures var c := x.conns[i]; var f := Reach(x.hist, i, c.una);
      && f <= c.una <= |c.sent|
      && QueuedData(Image(x).retrans, i) == c.sent[f..]
      && QueuedData(Image(x).retrans, i)[c.una - f..] == c.sent[c.una..]
  {
    hide Placed, QueueOf, Wrap;
    QueueCoversPrefix(x.conns, x.hist, i);
    assert InWindow(x.conns[i]) && Carried(x.hist, i) == |x.conns[i].sent|;
    var c, f := x.conns[i], Reach(x.hist, i, x.conns[i].una);
    assert c.sent[f..|c.sent|] == c.sent[f..];
  }
}
