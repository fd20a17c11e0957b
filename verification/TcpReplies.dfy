/** What the TCP module puts on the wire, in the fields a peer parses and in bytes. */
module TcpReplies {
  import opened Bytes
  import opened Checksum
  import opened Packets
  import opened TcpSpec

  // ----- the format -----

  /** The segment byte by byte, as in section 3.1 of RFC 9293: no options, window 4096, no urgent data. */
  lemma SegmentBytes(me: Ip, s: Sock, flags: byte, data: seq<byte>)
    requires |data| <= 1440
    ensures var g := Segment(me, s, flags, data);
      && |g| == 20 + |data| && g[20..] == data
      && 0x100 * g[0] as int + g[1] as int == s.localPort && 0x100 * g[2] as int + g[3] as int == s.remotePort
      && BigEndian(g, 4) == s.seqNo && BigEndian(g, 8) == (if flags / 16 % 2 == 1 then s.ackNo else 0)
      && g[12] == 0x50 && g[13] == flags && g[14] == 0x10 && g[15] == 0 && g[18] == 0 && g[19] == 0
  {
    var bare, g := BareSegment(s, flags, data), Segment(me, s, flags, data);
    assert forall k :: 0 <= k < 16 || 18 <= k < |g| ==> g[k] == bare[k];
    assert g[20..] == bare[20..] == data;
    ParseExact(g);
    SegmentParses(me, s, flags, data);
  }

  /** The 32-bit number spelled by four bytes, high byte first. */
  ghost function BigEndian(p: seq<byte>, o: nat): nat
    requires o + 4 <= |p|
  {
    0x100_0000 * p[o] as int + 0x1_0000 * p[o + 1] as int + 0x100 * p[o + 2] as int + p[o + 3] as int
  }

  /** What is read from any bytes: the header length counts words, options are skipped, and a header
      that is too short or ends behind the segment makes it malformed. */
  lemma ParseExact(p: seq<byte>)
    ensures Parse(p).Malformed? <==> |p| < 20 || p[12] / 16 < 5 || |p| < 4 * (p[12] / 16)
    ensures var h := Parse(p);
      h.Header? ==>
      && h.srcPort == 0x100 * p[0] as int + p[1] as int && h.dstPort == 0x100 * p[2] as int + p[3] as int
      && h.seqNo == BigEndian(p, 4) && h.ackNo == BigEndian(p, 8)
      && h.flags == p[13] && h.data == p[4 * (p[12] / 16)..]
  {}

  /** The checksum covers the addresses, the protocol number 6, the length, and the segment. */
  lemma ChecksumCovers(me: Ip, s: Sock, flags: byte, data: seq<byte>)
    requires |data| <= 1440
    ensures var len := 20 + |data|;
      ChecksumOf(me + s.remoteIp + [0, 6, len / 0x100, len % 0x100] + Segment(me, s, flags, data)) == 0
  {
    SegmentVerifies(me, s, flags, data);
    var len: nat := 20 + |data|;
    var tail: seq<byte> := [0, 6, len / 0x100, len % 0x100];
    assert [0, IP_PROTO_TCP] + NetBytes(len) == tail;
    assert Pseudo(me, s.remoteIp, len) == me + s.remoteIp + tail;
  }

  // ----- answers -----

  /** One segment more is out: for `dest`, and the peer parses it as `h`. */
  ghost predicate OneMore(before: Net, after: Net, dest: Ip, h: Header) {
    && |after.out| == |before.out| + 1 && after.out[..|before.out|] == before.out
    && after.out[|before.out|].dest == dest && Parse(after.out[|before.out|].bytes) == h
  }

  lemma PutOut(me: Ip, n: Net, r: Net, s: Sock, flags: byte, data: seq<byte>, ackNo: word)
    requires r.out == n.out + [Sent(me, s, flags, data)] && |data| <= 1440
    requires ackNo == if Has(flags, ACK) then s.ackNo else 0
    ensures OneMore(n, r, s.remoteIp, Header(s.localPort, s.remotePort, s.seqNo, ackNo, flags, data))
  {
    SegmentParses(me, s, flags, data);
    assert r.out[..|n.out|] == n.out;
  }

  /** The segment is for socket `k`. */
  ghost predicate ForSocket(n: Net, payload: seq<byte>, k: nat) {
    Parse(payload).Header? && k < |n.socks| && ForPort(n.socks, Parse(payload).dstPort) == k
  }

  /** A SYN with ACK completes the handshake: the connection is up, the numbers are taken over, and the
      third segment goes out. */
  lemma AcceptanceAnswered(me: Ip, n: Net, src: Ip, payload: seq<byte>, k: nat)
    requires ForSocket(n, payload, k) && n.socks[k].state == SynSent
    requires Parse(payload).flags / 2 % 2 == 1 && Parse(payload).flags / 16 % 2 == 1
    ensures var r, s, h := Handle(me, n, src, payload), n.socks[k], Parse(payload);
      && r.socks == n.socks[k := Sock(Established, src, h.srcPort, s.localPort, h.ackNo, (h.seqNo + 1) % 0x1_0000_0000, s.unread)]
      && OneMore(n, r, src, Header(s.localPort, h.srcPort, h.ackNo, (h.seqNo + 1) % 0x1_0000_0000, 0x10, []))
  {
    var s, h := n.socks[k], Parse(payload);
    var after := Delivered(s, src, h);
    PutOut(me, n, Handle(me, n, src, payload), after, ACK, [], after.ackNo);
  }

  /** Data on a connection is acknowledged by one segment, numbered past it. */
  lemma DataAnswered(me: Ip, n: Net, src: Ip, payload: seq<byte>, k: nat)
    requires ForSocket(n, payload, k) && n.socks[k].state == Established
    requires Parse(payload).flags / 4 % 2 == 0 && Parse(payload).flags % 2 == 0 && Parse(payload).data != []
    ensures var r, s, h := Handle(me, n, src, payload), n.socks[k], Parse(payload);
      var next := (h.seqNo + |h.data|) % 0x1_0000_0000;
      && OneMore(n, r, s.remoteIp, Header(s.localPort, s.remotePort, s.seqNo, next, 0x10, []))
      && (|s.unread| + |h.data| <= 4095 ==> r.socks == n.socks[k := s.(ackNo := next, unread := s.unread + h.data)])
  {
    var s, h := n.socks[k], Parse(payload);
    var after := Delivered(s, src, h);
    assert after == s.(ackNo := Plus(h.seqNo, |h.data|), unread := Wrapped(s.unread + h.data));
    assert Answer(me, s, after, h) == [Sent(me, after, ACK, [])];
    PutOut(me, n, Handle(me, n, src, payload), after, ACK, [], after.ackNo);
  }

  /** A finish closes the connection and is answered by an acknowledging finish, numbered past it. */
  lemma FinishAnswered(me: Ip, n: Net, src: Ip, payload: seq<byte>, k: nat)
    requires ForSocket(n, payload, k) && n.socks[k].state == Established
    requires Parse(payload).flags / 4 % 2 == 0 && Parse(payload).flags % 2 == 1
    ensures var r, s, h := Handle(me, n, src, payload), n.socks[k], Parse(payload);
      var next := (h.seqNo + 1) % 0x1_0000_0000;
      && r.socks == n.socks[k := s.(state := Closed, ackNo := next)]
      && OneMore(n, r, s.remoteIp, Header(s.localPort, s.remotePort, s.seqNo, next, 0x11, []))
  {
    var s, h := n.socks[k], Parse(payload);
    var after := Delivered(s, src, h);
    PutOut(me, n, Handle(me, n, src, payload), after, ACK + FIN, [], after.ackNo);
  }

  /** A reset closes the connection and is not answered. */
  lemma ResetUnanswered(me: Ip, n: Net, src: Ip, payload: seq<byte>, k: nat)
    requires ForSocket(n, payload, k) && n.socks[k].state == Established && Parse(payload).flags / 4 % 2 == 1
    ensures Handle(me, n, src, payload) == Net(n.socks[k := n.socks[k].(state := Closed)], n.out)
  {
    assert n.out + [] == n.out;
  }

  /** Everything else changes nothing and is not answered: what is malformed or for no socket in use,
      what does not accept a half-open connection, and an established one's bare acknowledgements. */
  lemma OthersUnanswered(me: Ip, n: Net, src: Ip, payload: seq<byte>)
    requires var h := Parse(payload);
      h.Header? ==> forall k :: 0 <= k < |n.socks| && n.socks[k].state != Closed && n.socks[k].localPort == h.dstPort ==>
        match n.socks[k].state
        case Closed => true
        case SynSent => h.flags / 2 % 2 == 0 || h.flags / 16 % 2 == 0
        case Established => h.flags / 4 % 2 == 0 && h.flags % 2 == 0 && h.data == []
    ensures Handle(me, n, src, payload) == n
  {
    var k := if Parse(payload).Header? then ForPort(n.socks, Parse(payload).dstPort) else |n.socks|;
    if k < |n.socks| {
      assert Delivered(n.socks[k], src, Parse(payload)) == n.socks[k];
      assert n.socks[k := n.socks[k]] == n.socks && n.out + [] == n.out;
    }
  }

  // ----- calls -----

  /** Opening and dialling puts out one SYN with the initial number, which is then counted. */
  lemma DialPutsOut(me: Ip, n: Net, k: nat, dest: Ip, port: half, local: half)
    requires k < |n.socks|
    ensures var r := Dialled(me, Opened(n, k), k, dest, port, local);
      && r.socks == n.socks[k := Sock(SynSent, dest, port, local, 0xABCD_1235, 0, [])]
      && OneMore(n, r, dest, Header(local, port, 0xABCD_1234, 0, 0x02, []))
  {
    var s := Opened(n, k).socks[k].(state := SynSent, remoteIp := dest, remotePort := port, localPort := local);
    PutOut(me, n, Dialled(me, Opened(n, k), k, dest, port, local), s, SYN, [], 0);
    assert Opened(n, k).socks[k := s.(seqNo := Plus(s.seqNo, 1))] == n.socks[k := s.(seqNo := Plus(s.seqNo, 1))];
  }

  /** Sending puts out one segment with the first 1440 bytes and moves the number past all of them; on a
      socket that is not connected it does nothing. */
  lemma WritePutsOut(me: Ip, n: Net, k: nat, data: seq<byte>)
    requires k < |n.socks|
    ensures var r, s := Write(me, n, k, data), n.socks[k];
      if s.state != Established then r == n else
      && r.socks == n.socks[k := s.(seqNo := (s.seqNo + |data|) % 0x1_0000_0000)]
      && OneMore(n, r, s.remoteIp, Header(s.localPort, s.remotePort, s.seqNo, s.ackNo, 0x10, if |data| <= 1440 then data else data[..1440]))
  {
    var s := n.socks[k];
    if s.state == Established {
      var first := if |data| <= 1440 then data else data[..1440];
      assert Sent(me, s, ACK, data) == Sent(me, s, ACK, first) by {
        assert Capped(data) == first == Capped(first);
      }
      PutOut(me, n, Write(me, n, k, data), s, ACK, first, s.ackNo);
    }
  }

  /** Closing frees the socket, and puts out one acknowledging finish exactly if it was connected. */
  lemma HangUpPutsOut(me: Ip, n: Net, k: nat)
    requires k < |n.socks|
    ensures var r, s := HungUp(me, n, k), n.socks[k];
      && r.socks == n.socks[k := s.(state := Closed)]
      && if s.state == Established then OneMore(n, r, s.remoteIp, Header(s.localPort, s.remotePort, s.seqNo, s.ackNo, 0x11, []))
         else r.out == n.out
  {
    var s := n.socks[k];
    if s.state == Established {
      PutOut(me, n, HungUp(me, n, k), s, FIN + ACK, [], s.ackNo);
    }
  }
}
