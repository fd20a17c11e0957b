/** The TCP socket table: handlers and calls over the ring buffers, against the stream specification. */
module Tcp {
  import opened Bytes
  import opened Checksum
  import opened Packets
  import opened TcpSpec

  const MAX_TCP_SOCKETS := 4

  class Socket {
    var state: State
    var remoteIp: Ip
    var remotePort: half
    var localPort: half
    var seqNo: word
    var ackNo: word
    const rxBuf: array<byte>
    var rxHead: nat
    var rxTail: nat

    ghost predicate Valid()
      reads this
    {
      rxBuf.Length == RING && rxHead < RING && rxTail < RING
    }

    ghost function View(): (s: Sock)
      requires Valid()
      reads this, rxBuf
      ensures |s.unread| < RING
    {
      Sock(state, remoteIp, remotePort, localPort, seqNo, ackNo, Unread(rxBuf[..], rxHead, rxTail))
    }

    constructor ()
      ensures Valid() && fresh(rxBuf) && state == Closed
    {
      state, remoteIp, remotePort, localPort, seqNo, ackNo, rxHead, rxTail := Closed, [0, 0, 0, 0], 0, 0, 0, 0, 0, 0;
      rxBuf := new byte[RING](_ => 0);
    }

    /** The socket belongs to a connection attempt now. */
    method Aim(dest: Ip, port: half, local: half)
      requires Valid()
      modifies this`remoteIp, this`remotePort, this`localPort, this`state
      ensures View() == old(View()).(state := SynSent, remoteIp := dest, remotePort := port, localPort := local)
    {
      remoteIp := dest;
      remotePort := port;
      localPort := local;
      state := SynSent;
    }

    /** Initial numbers and an empty ring. */
    method Renew()
      requires Valid()
      modifies this`rxHead, this`rxTail, this`seqNo, this`ackNo
      ensures Valid() && View() == old(View()).(seqNo := INITIAL_SEQ, ackNo := 0, unread := [])
    {
      rxHead, rxTail, seqNo, ackNo := 0, 0, INITIAL_SEQ, 0;
    }

    /** One byte goes in at the head, without a check for room. */
    method StoreByte(b: byte)
      requires Valid()
      modifies this`rxHead, rxBuf
      ensures Valid()
      ensures View() == old(View()).(unread := Wrapped(old(View()).unread + [b]))
    {
      ghost var before := rxBuf[..];
      RingStores(before, rxHead, rxTail, b);
      rxBuf[rxHead] := b;
      assert rxBuf[..] == before[rxHead := b];
      rxHead := (rxHead + 1) % RING;
    }

    /** Stores a payload in the ring without checking for room. */
    method Store(data: seq<byte>)
      requires Valid()
      modifies this`rxHead, rxBuf
      ensures Valid()
      ensures View() == old(View()).(unread := Wrapped(old(View()).unread + data))
    {
      ghost var was := View();
      var j := 0;
      assert was.unread + data[..0] == was.unread;
      while j < |data|
        invariant j <= |data| && Valid()
        invariant View() == was.(unread := Wrapped(was.unread + data[..j]))
      {
        assert was.unread + data[..j + 1] == was.unread + data[..j] + [data[j]];
        WrappedAgain(was.unread + data[..j], data[j]);
        StoreByte(data[j]);
        j := j + 1;
      }
      assert data[..j] == data;
    }

    /** Takes up to `max` bytes out of the ring, oldest first. */
    method Drain(max: nat) returns (got: seq<byte>)
      requires Valid()
      modifies this`rxTail
      ensures Valid()
      ensures |got| == Min(max, |old(View()).unread|)
      ensures got == old(View()).unread[..|got|]
      ensures View() == old(View()).(unread := old(View()).unread[|got|..])
    {
      ghost var was := View().unread;
      got := [];
      while rxHead != rxTail && |got| < max
        invariant Valid()
        invariant |got| <= |was| && |got| <= max && was == got + View().unread
        decreases max - |got|
      {
        ghost var before := View().unread;
        got := got + [rxBuf[rxTail]];
        assert (rxTail + 1) % RING == Next(rxTail);
        rxTail := (rxTail + 1) % RING;
        assert before == [got[|got| - 1]] + View().unread;
      }
    }
  }

  class Table {
    const sockets: seq<Socket>
    const myIp: Ip
    var nextPort: half
    /** The segments given to the network layer, oldest first. */
    var out: seq<Out>

    ghost predicate Valid()
      reads sockets
    {
      && |sockets| == MAX_TCP_SOCKETS
      && (forall i :: 0 <= i < |sockets| ==> sockets[i].Valid())
      && (forall i, j :: 0 <= i < j < |sockets| ==> sockets[i] != sockets[j] && sockets[i].rxBuf != sockets[j].rxBuf)
    }

    ghost function Buffers(): set<object>
    {
      set i | 0 <= i < |sockets| :: sockets[i].rxBuf
    }

    /** The table as values. */
    ghost function State(): (n: Net)
      requires Valid()
      reads this`out, sockets, Buffers()
      ensures |n.socks| == MAX_TCP_SOCKETS && n.out == out
      ensures forall i :: 0 <= i < MAX_TCP_SOCKETS ==> n.socks[i] == sockets[i].View()
    {
      Net([sockets[0].View(), sockets[1].View(), sockets[2].View(), sockets[3].View()], out)
    }

    /** Only one socket differs from the given table. */
    lemma OneChanged(was: seq<Sock>, k: nat)
      requires Valid() && |was| == MAX_TCP_SOCKETS && k < MAX_TCP_SOCKETS
      requires forall i :: 0 <= i < MAX_TCP_SOCKETS && i != k ==> sockets[i].View() == was[i]
      ensures State().socks == was[k := sockets[k].View()]
    {}

    constructor (ip: Ip)
      ensures Valid() && fresh(set s | s in sockets) && fresh(Buffers())
      ensures myIp == ip && nextPort == 49152 && out == []
      ensures forall s <- State().socks :: s.state == Closed
    {
      var a := new Socket();
      var b := new Socket();
      var c := new Socket();
      var d := new Socket();
      sockets := [a, b, c, d];
      myIp, nextPort, out := ip, 49152, [];
    }

    /** A segment with this socket's numbers goes out; payload over 1440 bytes is cut off. */
    method SendFlags(s: Socket, flags: byte, data: seq<byte>)
      requires Valid() && s in sockets && |data| < 0x1_0000
      modifies this`out
      ensures out == old(out) + [Sent(myIp, s.View(), flags, data)]
    {
      var dlen := if |data| > TCP_MAX_PAYLOAD then TCP_MAX_PAYLOAD else |data|;
      assert data[..dlen] == Capped(data);
      var total := 20 + dlen;
      var buf := new byte[20 + TCP_MAX_PAYLOAD](_ => 0);
      ghost var bare := BareSegment(s.View(), flags, data[..dlen]);
      var ackNo := if Has(flags, ACK) then s.ackNo else 0;
      Put(buf, 0, NetBytes(s.localPort) + NetBytes(s.remotePort) + NetWordBytes(s.seqNo) + NetWordBytes(ackNo)
        + [0x50, flags] + NetBytes(4096) + [0, 0, 0, 0]);
      Put(buf, 20, data[..dlen]);
      assert buf[..total] == bare by {
        assert bare == bare[..20] + data[..dlen];
        assert buf[..total] == buf[0..20] + buf[20..total];
      }
      var sum := TcpChecksum(myIp, s.remoteIp, buf[..total]);
      PutField(buf, total, 16, sum);
      assert s.View() == old(s.View());
      out := out + [Out(s.remoteIp, buf[..total])];
    }

    method SendOn(k: nat, flags: byte, data: seq<byte>)
      requires Valid() && k < MAX_TCP_SOCKETS && |data| < 0x1_0000
      modifies this`out
      ensures var n := old(State()); State() == Net(n.socks, n.out + [Sent(myIp, n.socks[k], flags, data)])
    {
      SendFlags(sockets[k], flags, data);
    }

    /** What a segment does to the socket it is for. */
    method Deliver(s: Socket, src: Ip, h: Header)
      requires Valid() && s in sockets && h.Header?
      modifies this`out, s, s.rxBuf
      ensures Valid()
      ensures s.View() == Delivered(old(s.View()), src, h)
      ensures out == old(out) + Answer(myIp, old(s.View()), s.View(), h)
    {
      if s.state == SynSent {
        if Has(h.flags, SYN) && Has(h.flags, ACK) {
          s.ackNo := Plus(h.seqNo, 1);
          s.seqNo := h.ackNo;
          s.state := Established;
          s.remoteIp := src;
          s.remotePort := h.srcPort;
          SendFlags(s, ACK, []);
        }
      } else if s.state == Established {
        DeliverUp(s, src, h);
      }
    }

    /** What a segment does to an established connection. */
    method DeliverUp(s: Socket, ghost src: Ip, h: Header)
      requires Valid() && s in sockets && h.Header? && s.state == Established
      modifies this`out, s, s.rxBuf
      ensures Valid()
      ensures s.View() == Delivered(old(s.View()), src, h)
      ensures out == old(out) + Answer(myIp, old(s.View()), s.View(), h)
    {
      if Has(h.flags, RST) {
        s.state := Closed;
      } else if Has(h.flags, FIN) {
        s.ackNo := Plus(h.seqNo, 1);
        SendFlags(s, ACK + FIN, []);
        ghost var v := s.View();
        s.state := Closed;
        assert BareSegment(v, ACK + FIN, []) == BareSegment(s.View(), ACK + FIN, []);
      } else if |h.data| > 0 {
        s.ackNo := Plus(h.seqNo, |h.data|);
        s.Store(h.data);
        SendFlags(s, ACK, []);
      }
    }

    /**
     * A segment reaches the first socket in use with its destination port and no other; one that is
     * too short, has a bad header length or is for no socket changes nothing.
     */
    method TcpHandle(src: Ip, payload: seq<byte>)
      requires Valid() && |payload| < 0x1_0000
      modifies this`out, sockets, Buffers()
      ensures Valid()
      ensures State() == Handle(myIp, old(State()), src, payload)
    {
      var h := Parse(payload);
      if h.Malformed? {
        return;
      }
      ghost var was := State();
      for i := 0 to MAX_TCP_SOCKETS
        invariant Valid() && State() == was
        invariant ForPort(was.socks, h.dstPort) >= i
      {
        var s := sockets[i];
        if s.state != Closed && s.localPort == h.dstPort {
          assert ForPort(was.socks, h.dstPort) == i;
          Deliver(s, src, h);
          OneChanged(was.socks, i);
          return;
        }
      }
    }

    /** The first free socket is readied; nothing marks it as taken. */
    method TcpOpen() returns (k: nat)
      requires Valid()
      modifies sockets
      ensures Valid()
      ensures k == FirstClosed(old(State()).socks)
      ensures State() == if k < MAX_TCP_SOCKETS then Opened(old(State()), k) else old(State())
    {
      ghost var was := State();
      assert was.socks[0..] == was.socks;
      for i := 0 to MAX_TCP_SOCKETS
        invariant Valid() && State() == was
        invariant FirstClosed(was.socks) == i + FirstClosed(was.socks[i..])
      {
        if sockets[i].state == Closed {
          sockets[i].Renew();
          OneChanged(was.socks, i);
          return i;
        }
        assert was.socks[i..][1..] == was.socks[i + 1..];
      }
      return MAX_TCP_SOCKETS;
    }

    method HandleArrived(arrived: seq<Arrival>)
      requires Valid()
      requires forall a <- arrived :: |a.1| < 0x1_0000
      modifies this`out, sockets, Buffers()
      ensures Valid()
      ensures State() == HandleEach(myIp, old(State()), arrived)
    {
      var i := 0;
      assert arrived[0..] == arrived;
      while i < |arrived|
        invariant i <= |arrived| && Valid()
        invariant HandleEach(myIp, State(), arrived[i..]) == HandleEach(myIp, old(State()), arrived)
      {
        assert arrived[i..][1..] == arrived[i + 1..];
        TcpHandle(arrived[i].0, arrived[i].1);
        i := i + 1;
      }
    }

    /** Polls while the wait goes on; each poll handles everything that has arrived. */
    method PollWhile(k: nat, w: Wait, polls: seq<seq<Arrival>>)
      requires Valid() && k < MAX_TCP_SOCKETS
      requires forall p <- polls, a <- p :: |a.1| < 0x1_0000
      modifies this`out, sockets, Buffers()
      ensures Valid()
      ensures State() == Poll(myIp, old(State()), k, w, polls)
    {
      var i := 0;
      assert polls[0..] == polls;
      while i < |polls| && (if w.ForConnection? then sockets[k].state == SynSent else sockets[k].rxHead == sockets[k].rxTail)
        invariant i <= |polls| && Valid()
        invariant Poll(myIp, State(), k, w, polls[i..]) == Poll(myIp, old(State()), k, w, polls)
      {
        PollNext(myIp, State(), k, w, polls, i);
        assert polls[i] in polls;
        HandleArrived(polls[i]);
        i := i + 1;
      }
    }

    /** The SYN goes out from a fresh local port and is counted. */
    method Dial(k: nat, dest: Ip, port: half)
      requires Valid() && k < MAX_TCP_SOCKETS
      modifies this`out, this`nextPort, sockets
      ensures Valid()
      ensures State() == Dialled(myIp, old(State()), k, dest, port, old(nextPort))
      ensures nextPort == (old(nextPort) + 1) % 0x1_0000
    {
      ghost var was := State();
      AimAt(k, dest, port);
      ghost var aimed := State();
      SendCounted(k, SYN, [], 1);
      DialledInSteps(myIp, was, k, dest, port, old(nextPort), aimed);
    }

    /** A segment goes out and the counter moves past what it carries. */
    method SendCounted(k: nat, flags: byte, data: seq<byte>, len: nat)
      requires Valid() && k < MAX_TCP_SOCKETS && |data| < 0x1_0000
      modifies this`out, sockets
      ensures Valid()
      ensures State() == SentCounted(myIp, old(State()), k, flags, data, len)
    {
      SendOn(k, flags, data);
      CountSent(k, len);
    }

    /** The socket gets its peer and the next local port. */
    method AimAt(k: nat, dest: Ip, port: half)
      requires Valid() && k < MAX_TCP_SOCKETS
      modifies this`nextPort, sockets
      ensures Valid()
      ensures nextPort == (old(nextPort) + 1) % 0x1_0000
      ensures var n := old(State());
        State() == n.(socks := n.socks[k := n.socks[k].(state := SynSent, remoteIp := dest, remotePort := port, localPort := old(nextPort))])
    {
      ghost var was := State();
      sockets[k].Aim(dest, port, nextPort);
      nextPort := (nextPort + 1) % 0x1_0000;
      OneChanged(was.socks, k);
    }

    /** The counter moves past what was sent. */
    method CountSent(k: nat, len: nat)
      requires Valid() && k < MAX_TCP_SOCKETS
      modifies sockets
      ensures Valid()
      ensures var n := old(State()); State() == n.(socks := n.socks[k := n.socks[k].(seqNo := Plus(n.socks[k].seqNo, len))])
    {
      ghost var was := State();
      var s := sockets[k];
      s.seqNo := Plus(s.seqNo, len);
      OneChanged(was.socks, k);
    }

    /** Dials, then polls; connected exactly if the socket is established by then. */
    method TcpConnect(k: nat, dest: Ip, port: half, polls: seq<seq<Arrival>>) returns (ok: bool)
      requires Valid() && k < MAX_TCP_SOCKETS
      requires forall p <- polls, a <- p :: |a.1| < 0x1_0000
      modifies this`out, this`nextPort, sockets, Buffers()
      ensures Valid()
      ensures State() == Poll(myIp, Dialled(myIp, old(State()), k, dest, port, old(nextPort)), k, ForConnection, polls)
      ensures nextPort == (old(nextPort) + 1) % 0x1_0000
      ensures ok <==> State().socks[k].state == Established
    {
      Dial(k, dest, port);
      PollWhile(k, ForConnection, polls);
      ok := sockets[k].state == Established;
    }

    /** The return value is the whole length, also when only 1440 bytes fit the segment. */
    method TcpSend(k: nat, data: seq<byte>) returns (n: int)
      requires Valid() && k < MAX_TCP_SOCKETS && |data| < 0x1_0000
      modifies this`out, sockets
      ensures Valid()
      ensures State() == Write(myIp, old(State()), k, data)
      ensures n == if old(State()).socks[k].state == Established then |data| else -1
    {
      var s := sockets[k];
      if s.state != Established {
        return -1;
      }
      SendCounted(k, ACK, data, |data|);
      return |data|;
    }

    method TakeUnread(k: nat, max: nat) returns (got: seq<byte>)
      requires Valid() && k < MAX_TCP_SOCKETS
      modifies sockets
      ensures Valid()
      ensures (State(), got) == ReadUpTo(old(State()), k, max)
    {
      ghost var was := State();
      got := sockets[k].Drain(max);
      OneChanged(was.socks, k);
    }

    /** Waits for data, then returns what is unread up to `max` bytes. */
    method TcpRecv(k: nat, max: nat, polls: seq<seq<Arrival>>) returns (got: seq<byte>)
      requires Valid() && k < MAX_TCP_SOCKETS
      requires forall p <- polls, a <- p :: |a.1| < 0x1_0000
      modifies this`out, sockets, Buffers()
      ensures Valid()
      ensures (State(), got) == ReadUpTo(Poll(myIp, old(State()), k, ForData, polls), k, max)
    {
      PollWhile(k, ForData, polls);
      got := TakeUnread(k, max);
    }

    /** An established connection says goodbye; the socket is free in any case. */
    method TcpClose(k: nat)
      requires Valid() && k < MAX_TCP_SOCKETS
      modifies this`out, sockets
      ensures Valid()
      ensures State() == HungUp(myIp, old(State()), k)
    {
      if sockets[k].state == Established {
        SendOn(k, FIN + ACK, []);
      }
      SetClosed(k);
    }

    method SetClosed(k: nat)
      requires Valid() && k < MAX_TCP_SOCKETS
      modifies sockets
      ensures Valid()
      ensures var n := old(State()); State() == n.(socks := n.socks[k := n.socks[k].(state := Closed)])
    {
      ghost var was := State();
      sockets[k].state := Closed;
      OneChanged(was.socks, k);
    }
  }
}
