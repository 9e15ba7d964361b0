/** The buffer of a datagram socket: copy_data_to_sock of virgoos/src/network/udp.c:33-49 and the datagram branch of
    recvfrom in virgoos/src/network/socket.c:420-438. */
module UdpBuffer {
  import opened Common

  const SOCKBUF_LEN: nat := 4096
  const LEN_SIZE: nat := 4
  const ADDR_SIZE: nat := 16

  /** A received datagram with its sender, a struct sockaddr_in. */
  datatype Datagram = Datagram(peer: seq<Byte>, data: seq<Byte>)

  predicate WellFormed(d: Datagram) {
    |d.peer| == ADDR_SIZE && |d.data| <= SOCKBUF_LEN
  }

  /** A 32-bit number in memory, lowest byte first. */
  function Int32(n: nat): (s: seq<Byte>)
    ensures |s| == LEN_SIZE
  {
    [n % 256, n / 256 % 256, n / 65536 % 256, n / 16777216 % 256]
  }

  function Int32At(s: seq<Byte>): nat
    requires |s| >= LEN_SIZE
  {
    s[0] as int + 256 * (s[1] as int + 256 * (s[2] as int + 256 * s[3] as int))
  }

  lemma Int32RoundTrip(n: nat, rest: seq<Byte>)
    requires n <= SOCKBUF_LEN
    ensures Int32At(Int32(n) + rest) == n
    ensures (Int32(n) + rest)[..4] == [n % 256, n / 256, 0, 0]
  {
    var s := Int32(n) + rest;
    assert s[0] == n % 256 && s[1] == n / 256 && s[2] == 0 && s[3] == 0;
  }

  /** How a datagram lies in the buffer. */
  function Record(d: Datagram): seq<Byte> {
    Int32(|d.data|) + d.peer + d.data
  }

  function Serial(q: seq<Datagram>): seq<Byte> {
    if q == [] then [] else Record(q[0]) + Serial(q[1..])
  }

  ghost predicate AllWellFormed(q: seq<Datagram>) {
    forall k :: 0 <= k < |q| ==> WellFormed(q[k])
  }

  /** The parts of the record at the front. */
  lemma FrontRecord(d: Datagram, rest: seq<Byte>)
    requires WellFormed(d)
    ensures var s := Record(d) + rest; var n := |d.data|;
      && |Record(d)| == LEN_SIZE + ADDR_SIZE + n
      && Int32At(s) == n && s[..4] == [n % 256, n / 256, 0, 0]
      && s[LEN_SIZE..LEN_SIZE + ADDR_SIZE] == d.peer
      && s[LEN_SIZE + ADDR_SIZE..LEN_SIZE + ADDR_SIZE + n] == d.data
      && s[LEN_SIZE + ADDR_SIZE + n..] == rest
  {
    hide Int32, Int32At;
    assert Record(d) + rest == Int32(|d.data|) + (d.peer + d.data + rest);
    Int32RoundTrip(|d.data|, d.peer + d.data + rest);
  }

  /** The buffer determines the datagrams: boundaries cannot be mistaken. */
  lemma {:induction false} SerialInjective(q: seq<Datagram>, q': seq<Datagram>)
    requires AllWellFormed(q) && AllWellFormed(q') && Serial(q) == Serial(q')
    ensures q == q'
  {
    hide Record, Int32At;
    if q == [] {
      if q' != [] {
        FrontRecord(q'[0], Serial(q'[1..]));
      }
    } else {
      FrontRecord(q[0], Serial(q[1..]));
      if q' != [] {
        FrontRecord(q'[0], Serial(q'[1..]));
        SerialInjective(q[1..], q'[1..]);
        assert q == [q[0]] + q[1..] && q' == [q'[0]] + q'[1..];
      }
    }
  }

  lemma {:induction false} SerialAppend(q: seq<Datagram>, d: Datagram)
    ensures Serial(q + [d]) == Serial(q) + Record(d)
  {
    hide Record;
    if q == [] {
      assert [] + [d] == [d] && Serial([d]) == Record(d) + Serial([]);
    } else {
      assert (q + [d])[1..] == q[1..] + [d];
      SerialAppend(q[1..], d);
    }
  }

  /** What recvfrom returns of a datagram: nothing ready, or the bytes that fit and the sender. */
  datatype Received = NotReady | Received(data: seq<Byte>, peer: seq<Byte>)

  class UdpSocket {
    const buf: array<Byte>
    var dataLen: nat
    /** The datagrams in the buffer, oldest first. */
    ghost var queue: seq<Datagram>

    ghost predicate Valid()
      reads this, buf
    {
      && buf.Length == SOCKBUF_LEN && dataLen <= SOCKBUF_LEN
      && AllWellFormed(queue) && buf[..dataLen] == Serial(queue)
    }

    constructor ()
      ensures Valid() && queue == [] && fresh(buf)
    {
      buf := new Byte[SOCKBUF_LEN];
      dataLen, queue := 0, [];
    }

    /** memcpy into the buffer. */
    method Put(at: nat, s: seq<Byte>)
      requires at + |s| <= buf.Length
      modifies buf
      ensures buf[..at + |s|] == old(buf[..at]) + s
    {
      forall i | 0 <= i < |s| {
        buf[at + i] := s[i];
      }
    }

    /** copy_data_to_sock: appends the datagram, or drops it when the buffer has no room for it. */
    method CopyDataToSock(peer: seq<Byte>, data: seq<Byte>)
      requires Valid() && |peer| == ADDR_SIZE
      modifies this, buf
      ensures Valid()
      ensures queue == if old(dataLen) + |data| + LEN_SIZE + ADDR_SIZE > SOCKBUF_LEN then old(queue)
                       else old(queue) + [Datagram(peer, data)]
    {
      hide Serial, Record, Int32;
      if dataLen + |data| + LEN_SIZE + ADDR_SIZE > SOCKBUF_LEN {
        return;
      }
      ghost var d := Datagram(peer, data);
      ghost var was := buf[..dataLen];
      SerialAppend(queue, d);
      Put(dataLen, Int32(|data|));
      Put(dataLen + LEN_SIZE, peer);
      Put(dataLen + LEN_SIZE + ADDR_SIZE, data);
      var end := dataLen + LEN_SIZE + ADDR_SIZE + |data|;
      RecordBehind(was, d);
      dataLen := end;
      queue := queue + [d];
    }

    static lemma RecordBehind(was: seq<Byte>, d: Datagram)
      ensures was + Int32(|d.data|) + d.peer + d.data == was + Record(d)
    {
      hide Int32;
      assert was + Int32(|d.data|) + d.peer + d.data == was + (Int32(|d.data|) + d.peer + d.data);
    }

    /** The memmove of recvfrom. */
    method ShiftDown(size: nat)
      requires size <= buf.Length == SOCKBUF_LEN
      modifies buf
      ensures buf[..SOCKBUF_LEN - size] == old(buf[..])[size..]
    {
      forall i | 0 <= i < SOCKBUF_LEN - size {
        buf[i] := buf[size + i];
      }
    }

    /** The oldest record goes, and the rest of the data moves to the front. */
    method DropFront(size: nat, ghost rest: seq<Byte>)
      requires size <= dataLen <= buf.Length == SOCKBUF_LEN && buf[..][size..][..dataLen - size] == rest
      modifies this`dataLen, buf
      ensures dataLen == old(dataLen) - size && buf[..dataLen] == rest
    {
      ShiftDown(size);
      dataLen := dataLen - size;
      HeadSlice(buf[..], SOCKBUF_LEN - size, 0, dataLen);
    }

    /** The datagram branch of recvfrom. */
    method RecvFrom(length: nat) returns (r: Received)
      requires Valid()
      modifies this, buf
      ensures Valid()
      ensures r.NotReady? <==> old(queue) == []
      ensures r.NotReady? ==> queue == old(queue)
      ensures r.Received? ==>
        queue == old(queue)[1..]
        && var d := old(queue)[0]; r.peer == d.peer && r.data == d.data[..Min(length, |d.data|)]
      ensures dataLen == 0 <==> queue == []
    {
      hide Record, Int32At, Int32;
      EmptySerial(queue);
      assert |buf[..dataLen]| == dataLen && buf[..dataLen] == Serial(queue);
      if dataLen == 0 {
        return NotReady;
      }
      ghost var was, d, rest := buf[..], queue[0], Serial(queue[1..]);
      assert WellFormed(d) && AllWellFormed(queue[1..]) && was[..dataLen] == Record(d) + rest;
      hide Serial, AllWellFormed;
      PartsOf(was, dataLen, d, rest);
      var len := Int32At(buf[..LEN_SIZE]);
      var peer := buf[LEN_SIZE..LEN_SIZE + ADDR_SIZE];
      var n := if len < length then len else length;
      r := Received(buf[LEN_SIZE + ADDR_SIZE..LEN_SIZE + ADDR_SIZE + n], peer);
      var size := LEN_SIZE + ADDR_SIZE + len;
      DropFront(size, rest);
      queue := queue[1..];
      EmptySerial(queue);
      assert |buf[..dataLen]| == dataLen;
    }

    static lemma EmptySerial(q: seq<Datagram>)
      ensures |Serial(q)| == 0 <==> q == []
    {
    }

    /** The parts of a buffer whose first n bytes start with a record. */
    static lemma PartsOf(s: seq<Byte>, n: nat, d: Datagram, rest: seq<Byte>)
      requires WellFormed(d) && n <= |s| && s[..n] == Record(d) + rest
      ensures var end := LEN_SIZE + ADDR_SIZE + |d.data|;
        && end <= n && n - end == |rest|
        && Int32At(s[..LEN_SIZE]) == |d.data|
        && s[LEN_SIZE..LEN_SIZE + ADDR_SIZE] == d.peer
        && (forall m :: 0 <= m <= |d.data| ==> s[LEN_SIZE + ADDR_SIZE..LEN_SIZE + ADDR_SIZE + m] == d.data[..m])
        && s[end..][..n - end] == rest
    {
      hide Record, Int32;
      FrontRecord(d, rest);
      var t, p, q := s[..n], LEN_SIZE, LEN_SIZE + ADDR_SIZE;
      assert Int32At(s[..LEN_SIZE]) == Int32At(t);
      hide Int32At;
      HeadSlice(s, n, p, q);
      forall m | 0 <= m <= |d.data|
        ensures s[q..q + m] == d.data[..m]
      {
        HeadSlice(s, n, q, q + m);
        HeadSlice(t[q..], |d.data|, 0, m);
      }
    }

    static lemma HeadSlice(s: seq<Byte>, n: nat, a: nat, b: nat)
      requires a <= b <= n <= |s|
      ensures s[..n][a..b] == s[a..b]
    {
    }
  }
}
