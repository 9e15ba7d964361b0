/** tcp_send_packet, the acknowledgement part of parse_tcp and tcp_retransmit_timer_proc of virgoos/src/network/tcp.c,
    for sockets in the connected state. */
module TcpSenders {
  import opened Common
  import opened TcpStream

  /** Entry n of the list as it was, which is entry l of the list as it is. */
  lemma Passed(r: seq<Segment>, l: nat, q: seq<Segment>, n: nat)
    requires l < |r| && n <= |q| && r[l..] == q[n..]
    ensures n < |q| && r[l] == q[n] && r[l + 1..] == q[n + 1..]
    ensures q[..n + 1] == q[..n] + [q[n]] && r[..l + 1] == r[..l] + [r[l]]
    ensures var s := r[..l] + r[l + 1..]; s[..l] == r[..l] && s[l..] == r[l + 1..]
  {
    assert r[l] == r[l..][0] && q[n] == q[n..][0];
    assert r[l..][1..] == r[l + 1..] && q[n..][1..] == q[n + 1..];
  }

  class TcpSender {
    var socks: seq<Sock>
    /** retrans_list */
    var retrans: seq<Segment>

    ghost function State(): Sender
      reads this
    {
      Sender(socks, retrans)
    }

    /** tcp_send_packet with a payload and the ACK flag: returns the length sent, or -1 without an interface or a
        transmit buffer.  The three allocations for the retransmission entry may each fail, and then the packet goes
        unqueued.  seqnum and payload are those of the packet. */
    method SendPacket(i: nat, buf: seq<Byte>, interface: bool, buffer: bool, entry: bool, timer: bool, node: bool)
      returns (rv: int, seqnum: nat, payload: seq<Byte>)
      requires i < |socks|
      modifies this
      ensures rv == -1 <==> !interface || !buffer
      ensures rv == -1 ==> State() == old(State())
      ensures rv != -1 ==>
        rv == SendLength(old(socks[i]), |buf|) && State() == Send(old(State()), i, buf, entry && timer && node)
      ensures rv != -1 ==> |payload| == rv && payload <= buf && seqnum == old(socks[i].seqnum)
    {
      hide Wrap;
      var length := |buf|;
      if !interface {
        return -1, 0, [];
      }
      var allowed := Wrap(socks[i].acked + socks[i].win - socks[i].seqnum);
      if allowed < length {
        length := allowed;
      }
      if !buffer {
        return -1, 0, [];
      }
      seqnum, payload := socks[i].seqnum, buf[..length];
      socks := socks[i := socks[i].(seqnum := Wrap(seqnum + length))];
      rv := length;
      if length == 0 {
        return;
      }
      if !entry {
        return;
      }
      if !timer {
        return;
      }
      if !node {
        return;
      }
      retrans := retrans + [Segment(i, seqnum, buf[..length], MAX_TCP_RETRANSMISSIONS)];
    }

    /** The acknowledgement number of a packet for socket i. */
    method TakeAck(i: nat, ack: nat)
      requires i < |socks|
      modifies this
      ensures State() == Ack(old(State()), i, ack)
    {
      hide Wrap;
      if Wrap(ack - socks[i].acked) > socks[i].win {
        return;
      }
      ghost var q, n := retrans, 0;
      var l := 0;
      assert Unacknowledged(q[..0], i, ack, socks[i].win) == [];
      hide Unacknowledged;
      while l < |retrans|
        invariant n <= |q| && l <= |retrans| && socks == old(socks)
        invariant retrans[..l] == Unacknowledged(q[..n], i, ack, socks[i].win) && retrans[l..] == q[n..]
        decreases |q| - n
      {
        Passed(retrans, l, q, n);
        UnacknowledgedOfMore(q[..n], q[n], i, ack, socks[i].win);
        if retrans[l].sock == i && Wrap(ack - (retrans[l].seqnum + |retrans[l].data|)) <= socks[i].win {
          retrans := retrans[..l] + retrans[l + 1..];
        } else {
          l := l + 1;
        }
        n := n + 1;
      }
      assert retrans[..l] == retrans && q[..n] == q;
      socks := socks[i := socks[i].(acked := ack)];
    }

    /** The callback of the retransmission timer of entry k; hands out the payload that goes to the wire again. */
    method Retransmit(k: nat, t: Transmit) returns (payload: seq<Byte>)
      requires k < |retrans|
      modifies this`retrans
      ensures State() == Expire(old(State()), k, t)
      ensures t.Sent? ==> payload == old(retrans[k].data)
    {
      payload := [];
      if t.Busy? {
        return;
      }
      if t.Sent? {
        payload := retrans[k].data;
        retrans := retrans[k := retrans[k].(more := retrans[k].more - 1)];
        if retrans[k].more != 0 {
          return;
        }
      }
      retrans := retrans[..k] + retrans[k + 1..];
    }
  }
}
