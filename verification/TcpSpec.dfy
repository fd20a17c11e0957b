/** TCP sockets as byte streams: the receive ring, the segment format and what a segment does. */
module TcpSpec {
  import opened Bytes
  import opened Checksum
  import opened Packets

  function Min(a: nat, b: nat): nat {
    if a < b then a else b
  }

  // ----- the receive ring -----

  const RING := 4096

  function Next(i: nat): nat
    requires i < RING
  {
    if i + 1 == RING then 0 else i + 1
  }

  function Count(head: nat, tail: nat): nat
    requires head < RING && tail < RING
  {
    if head >= tail then head - tail else head + RING - tail
  }

  /** The bytes between tail and head, oldest first. */
  function Unread(buf: seq<byte>, head: nat, tail: nat): (u: seq<byte>)
    requires |buf| == RING && head < RING && tail < RING
    ensures |u| == Count(head, tail)
    decreases Count(head, tail), |buf|
  {
    if head == tail then [] else [buf[tail]] + Unread(buf, head, Next(tail))
  }

  /** A byte stored in a ring with room comes last; one stored in a full ring empties it. */
  lemma {:induction false} Stored(buf: seq<byte>, head: nat, tail: nat, b: byte)
    requires |buf| == RING && head < RING && tail < RING
    ensures Unread(buf[head := b], Next(head), tail) ==
      if Count(head, tail) == RING - 1 then [] else Unread(buf, head, tail) + [b]
    decreases Count(head, tail)
  {
    if head == tail {
      assert Unread(buf[head := b], Next(head), Next(tail)) == [];
    } else if Next(head) != tail {
      Stored(buf, head, Next(tail), b);
    }
  }

  /** What a ring shows of a stream written without checking for room: every full lap is lost. */
  function Wrapped(u: seq<byte>): (w: seq<byte>)
    ensures |w| < RING
    ensures |u| < RING ==> w == u
    decreases |u|
  {
    if |u| < RING then u else Wrapped(u[RING..])
  }

  lemma {:induction false} WrappedByte(u: seq<byte>, b: byte)
    ensures Wrapped(u + [b]) == if |Wrapped(u)| == RING - 1 then [] else Wrapped(u) + [b]
    decreases |u|
  {
    if |u| >= RING {
      assert (u + [b])[RING..] == u[RING..] + [b];
      WrappedByte(u[RING..], b);
    } else if |u| == RING - 1 {
      assert (u + [b])[RING..] == [];
    }
  }

  /** Storing without a check appends to the stream as long as the ring can show it. */
  lemma RingStores(buf: seq<byte>, head: nat, tail: nat, b: byte)
    requires |buf| == RING && head < RING && tail < RING
    ensures (head + 1) % RING == Next(head)
    ensures Unread(buf[head := b], Next(head), tail) == Wrapped(Unread(buf, head, tail) + [b])
  {
    Stored(buf, head, tail, b);
    WrappedByte(Unread(buf, head, tail), b);
  }

  lemma WrappedAgain(u: seq<byte>, b: byte)
    ensures Wrapped(Wrapped(u) + [b]) == Wrapped(u + [b])
  {
    WrappedByte(u, b);
    WrappedByte(Wrapped(u), b);
  }

  // ----- segments -----

  const TCP_MAX_PAYLOAD := 1440
  const FIN: byte := 0x01
  const SYN: byte := 0x02
  const RST: byte := 0x04
  const ACK: byte := 0x10

  /** Whether a single-bit flag is set. */
  predicate Has(flags: byte, bit: byte)
    requires bit > 0
  {
    flags / bit % 2 == 1
  }

  function NetWordBytes(w: word): (b: seq<byte>)
    ensures |b| == 4 && NetWord(b, 0) == w
  {
    NetBytes(w / 0x1_0000) + NetBytes(w % 0x1_0000)
  }

  function NetWord(s: seq<byte>, o: nat): word
    requires o + 4 <= |s|
  {
    0x1_0000 * NetHalf(s, o) + NetHalf(s, o + 2)
  }

  datatype State = Closed | SynSent | Established

  /** A socket with its ring read as the stream of unread bytes. */
  datatype Sock = Sock(state: State, remoteIp: Ip, remotePort: half, localPort: half, seqNo: word, ackNo: word, unread: seq<byte>)

  /** A segment handed to the network layer. */
  datatype Out = Out(dest: Ip, bytes: seq<byte>)

  function Capped(data: seq<byte>): (d: seq<byte>)
    ensures |d| <= TCP_MAX_PAYLOAD && d <= data && (|data| <= TCP_MAX_PAYLOAD ==> d == data)
  {
    if |data| > TCP_MAX_PAYLOAD then data[..TCP_MAX_PAYLOAD] else data
  }

  /** The segment before its checksum is stored. */
  function BareSegment(s: Sock, flags: byte, data: seq<byte>): (g: seq<byte>)
    ensures |g| == 20 + |data| && NetHalf(g, 16) == 0
  {
    NetBytes(s.localPort) + NetBytes(s.remotePort) + NetWordBytes(s.seqNo)
    + NetWordBytes(if Has(flags, ACK) then s.ackNo else 0) + [0x50, flags] + NetBytes(4096) + [0, 0, 0, 0] + data
  }

  function Segment(me: Ip, s: Sock, flags: byte, data: seq<byte>): (g: seq<byte>)
    requires |data| <= TCP_MAX_PAYLOAD
    ensures |g| == 20 + |data|
  {
    var bare := BareSegment(s, flags, data);
    PutNetHalf(bare, 16, ChecksumOf(Pseudo(me, s.remoteIp, |bare|) + bare))
  }

  function Sent(me: Ip, s: Sock, flags: byte, data: seq<byte>): Out {
    Out(s.remoteIp, Segment(me, s, flags, Capped(data)))
  }

  datatype Header = Malformed | Header(srcPort: half, dstPort: half, seqNo: word, ackNo: word, flags: byte, data: seq<byte>)

  function Parse(p: seq<byte>): Header {
    if |p| < 20 then Malformed
    else
      var off := p[12] / 16 * 4;
      if off < 20 || off > |p| then Malformed
      else Header(NetHalf(p, 0), NetHalf(p, 2), NetWord(p, 4), NetWord(p, 8), p[13], p[off..])
  }

  /** The checksum of a sent segment verifies at the receiver. */
  lemma SegmentVerifies(me: Ip, s: Sock, flags: byte, data: seq<byte>)
    requires |data| <= TCP_MAX_PAYLOAD
    ensures ChecksumOf(Pseudo(me, s.remoteIp, 20 + |data|) + Segment(me, s, flags, data)) == 0
  {
    var bare := BareSegment(s, flags, data);
    var pseudo := Pseudo(me, s.remoteIp, |bare|);
    var whole := pseudo + bare;
    assert NetHalf(whole, 28) == NetHalf(bare, 16);
    FieldVerifies(whole, 28, ChecksumOf(whole));
    assert whole[..28] == pseudo + bare[..16] && whole[30..] == bare[18..];
    assert PutNetHalf(whole, 28, ChecksumOf(whole)) == pseudo + PutNetHalf(bare, 16, ChecksumOf(whole));
  }

  /** A sent segment is parsed back into the fields and payload it was built from. */
  lemma SegmentParses(me: Ip, s: Sock, flags: byte, data: seq<byte>)
    requires |data| <= TCP_MAX_PAYLOAD
    ensures Parse(Segment(me, s, flags, data)) ==
      Header(s.localPort, s.remotePort, s.seqNo, if Has(flags, ACK) then s.ackNo else 0, flags, data)
  {
    var bare, g := BareSegment(s, flags, data), Segment(me, s, flags, data);
    var ackNo := if Has(flags, ACK) then s.ackNo else 0;
    assert forall k :: 0 <= k < 16 || 18 <= k < |g| ==> g[k] == bare[k];
    assert g[20..] == bare[20..] == data;
    assert NetHalf(g, 0) == NetHalf(NetBytes(s.localPort), 0);
    assert NetHalf(g, 2) == NetHalf(NetBytes(s.remotePort), 0);
    assert NetWord(g, 4) == NetWord(NetWordBytes(s.seqNo), 0);
    assert NetWord(g, 8) == NetWord(NetWordBytes(ackNo), 0);
  }

  /** Sequence numbers wrap at 32 bits. */
  function Plus(w: word, n: nat): word {
    (w + n) % 0x1_0000_0000
  }

  lemma PlusPlus(w: word, m: nat, n: nat)
    ensures Plus(Plus(w, m), n) == Plus(w, m + n)
  {}

  // ----- what a segment does -----

  /** The socket after a segment. */
  function Delivered(s: Sock, src: Ip, h: Header): Sock
    requires h.Header?
  {
    match s.state
    case Closed => s
    case SynSent =>
      if Has(h.flags, SYN) && Has(h.flags, ACK)
      then s.(ackNo := Plus(h.seqNo, 1), seqNo := h.ackNo, state := Established, remoteIp := src, remotePort := h.srcPort)
      else s
    case Established =>
      if Has(h.flags, RST) then s.(state := Closed)
      else if Has(h.flags, FIN) then s.(ackNo := Plus(h.seqNo, 1), state := Closed)
      else if |h.data| > 0 then s.(ackNo := Plus(h.seqNo, |h.data|), unread := Wrapped(s.unread + h.data))
      else s
  }

  /** The answer to a segment, from the socket as it stands afterwards. */
  function Answer(me: Ip, before: Sock, after: Sock, h: Header): seq<Out>
    requires h.Header?
  {
    match before.state
    case Closed => []
    case SynSent => if after.state == Established then [Sent(me, after, ACK, [])] else []
    case Established =>
      if Has(h.flags, RST) then []
      else if Has(h.flags, FIN) then [Sent(me, after, ACK + FIN, [])]
      else if |h.data| > 0 then [Sent(me, after, ACK, [])] else []
  }

  /** The stream grows by the payload exactly when at most 4095 bytes are then unread. */
  lemma RingHoldsExactly(s: Sock, src: Ip, h: Header)
    requires h.Header? && s.state == Established && !Has(h.flags, RST) && !Has(h.flags, FIN) && |h.data| > 0
    ensures Delivered(s, src, h).unread == s.unread + h.data <==> |s.unread| + |h.data| <= 4095
  {
    if |s.unread| + |h.data| >= RING {
      assert |Wrapped(s.unread + h.data)| < RING;
    }
  }

  // ----- the table -----

  /** The socket table and the segments given to the network layer so far. */
  datatype Net = Net(socks: seq<Sock>, out: seq<Out>)

  /** The first socket in use on a port, or the table size. */
  function ForPort(vs: seq<Sock>, port: half): (k: nat)
    ensures k <= |vs|
    ensures k < |vs| ==> vs[k].state != Closed && vs[k].localPort == port
    ensures forall i :: 0 <= i < k ==> vs[i].state == Closed || vs[i].localPort != port
  {
    if |vs| == 0 || (vs[0].state != Closed && vs[0].localPort == port) then 0 else 1 + ForPort(vs[1..], port)
  }

  /** A segment reaches the first socket in use on its destination port, and no other. */
  function Handle(me: Ip, n: Net, src: Ip, payload: seq<byte>): (r: Net)
    ensures |r.socks| == |n.socks|
  {
    var h := Parse(payload);
    if h.Malformed? || ForPort(n.socks, h.dstPort) == |n.socks| then n
    else
      var k := ForPort(n.socks, h.dstPort);
      var after := Delivered(n.socks[k], src, h);
      Net(n.socks[k := after], n.out + Answer(me, n.socks[k], after, h))
  }

  /** A segment is put out and the counter moved past `len` bytes. */
  function SentCounted(me: Ip, n: Net, k: nat, flags: byte, data: seq<byte>, len: nat): (r: Net)
    requires k < |n.socks|
    ensures |r.socks| == |n.socks|
  {
    var s := n.socks[k];
    Net(n.socks[k := s.(seqNo := Plus(s.seqNo, len))], n.out + [Sent(me, s, flags, data)])
  }

  /** Sending moves the counter by the whole length, whatever fits the segment. */
  function Write(me: Ip, n: Net, k: nat, data: seq<byte>): Net
    requires k < |n.socks|
  {
    if n.socks[k].state != Established then n else SentCounted(me, n, k, ACK, data, |data|)
  }

  /** Reading takes up to `max` bytes off the front of the unread ones. */
  function ReadUpTo(n: Net, k: nat, max: nat): (r: (Net, seq<byte>))
    requires k < |n.socks|
  {
    var s := n.socks[k];
    var m := Min(max, |s.unread|);
    (Net(n.socks[k := s.(unread := s.unread[m..])], n.out), s.unread[..m])
  }

  /** The first free socket, or the table size: what `tcp_open` looks for. */
  function FirstClosed(vs: seq<Sock>): (k: nat)
    ensures k <= |vs|
    decreases |vs|
  {
    if |vs| == 0 || vs[0].state == Closed then 0 else 1 + FirstClosed(vs[1..])
  }

  /** A free socket made ready; it stays free until the connection is dialled. */
  function Opened(n: Net, k: nat): Net
    requires k < |n.socks|
  {
    n.(socks := n.socks[k := n.socks[k].(seqNo := INITIAL_SEQ, ackNo := 0, unread := [])])
  }

  /** A socket on its way to `dest`: the SYN is out and counted. */
  function Dialled(me: Ip, n: Net, k: nat, dest: Ip, port: half, local: half): (r: Net)
    requires k < |n.socks|
    ensures |r.socks| == |n.socks|
  {
    var s := n.socks[k].(state := SynSent, remoteIp := dest, remotePort := port, localPort := local);
    Net(n.socks[k := s.(seqNo := Plus(s.seqNo, 1))], n.out + [Sent(me, s, SYN, [])])
  }

  /** Dialling is aiming the socket, and then sending the SYN and counting it. */
  lemma DialledInSteps(me: Ip, n: Net, k: nat, dest: Ip, port: half, local: half, aimed: Net)
    requires k < |n.socks|
    requires aimed == n.(socks := n.socks[k := n.socks[k].(state := SynSent, remoteIp := dest, remotePort := port, localPort := local)])
    ensures SentCounted(me, aimed, k, SYN, [], 1) == Dialled(me, n, k, dest, port, local)
  {}

  function HungUp(me: Ip, n: Net, k: nat): Net
    requires k < |n.socks|
  {
    var s := n.socks[k];
    Net(n.socks[k := s.(state := Closed)], n.out + if s.state == Established then [Sent(me, s, FIN + ACK, [])] else [])
  }

  /** Changing a socket without closing it or moving its port does not change who gets a segment. */
  lemma {:induction false} SamePorts(vs: seq<Sock>, k: nat, s: Sock, port: half)
    requires k < |vs| && (s.state == Closed <==> vs[k].state == Closed) && s.localPort == vs[k].localPort
    ensures ForPort(vs[k := s], port) == ForPort(vs, port)
    decreases |vs|
  {
    if k > 0 {
      assert vs[k := s][1..] == vs[1..][k - 1 := s];
      SamePorts(vs[1..], k - 1, s, port);
    }
  }

  datatype Wait = ForConnection | ForData

  predicate Waiting(s: Sock, w: Wait) {
    match w
    case ForConnection => s.state == SynSent
    case ForData => |s.unread| == 0
  }

  /** A payload of the network layer and its sender. */
  type Arrival = (Ip, seq<byte>)

  /** One poll handles everything that has arrived. */
  function HandleEach(me: Ip, n: Net, arrived: seq<Arrival>): (r: Net)
    ensures |r.socks| == |n.socks|
    decreases |arrived|
  {
    if |arrived| == 0 then n else HandleEach(me, Handle(me, n, arrived[0].0, arrived[0].1), arrived[1..])
  }

  /** The wait is checked between polls only; running out of them is the timeout. */
  function Poll(me: Ip, n: Net, k: nat, w: Wait, polls: seq<seq<Arrival>>): (r: Net)
    requires k < |n.socks|
    ensures |r.socks| == |n.socks|
    decreases |polls|
  {
    if |polls| == 0 || !Waiting(n.socks[k], w) then n else Poll(me, HandleEach(me, n, polls[0]), k, w, polls[1..])
  }

  /** One poll of the loop. */
  lemma PollNext(me: Ip, n: Net, k: nat, w: Wait, polls: seq<seq<Arrival>>, i: nat)
    requires k < |n.socks| && i < |polls| && Waiting(n.socks[k], w)
    ensures Poll(me, n, k, w, polls[i..]) == Poll(me, HandleEach(me, n, polls[i]), k, w, polls[i + 1..])
  {
    assert polls[i..][1..] == polls[i + 1..];
  }

  // ----- runs -----

  /** What happens to an established connection whose peer sends in order. */
  datatype Event = Arrives(data: seq<byte>) | Sends(data: seq<byte>) | Reads(max: nat)

  /** A connection with what the two sides have seen of it. */
  datatype Conn = Conn(sock: Sock, accepted: seq<byte>, returned: seq<byte>, handed: seq<byte>, wire: seq<Out>)

  /** An in-order data segment from the peer. */
  function InOrder(s: Sock, data: seq<byte>): Header {
    Header(s.remotePort, s.localPort, s.ackNo, s.seqNo, ACK, data)
  }

  function Happen(me: Ip, c: Conn, e: Event): Conn {
    match e
    case Arrives(data) =>
      c.(sock := Delivered(c.sock, c.sock.remoteIp, InOrder(c.sock, data)), accepted := c.accepted + data)
    case Sends(data) =>
      c.(sock := c.sock.(seqNo := Plus(c.sock.seqNo, |data|)), handed := c.handed + data,
         wire := c.wire + [Sent(me, c.sock, ACK, data)])
    case Reads(max) =>
      var n := Min(max, |c.sock.unread|);
      c.(sock := c.sock.(unread := c.sock.unread[n..]), returned := c.returned + c.sock.unread[..n])
  }

  function Run(me: Ip, c: Conn, es: seq<Event>): Conn {
    if |es| == 0 then c else Happen(me, Run(me, c, es[..|es| - 1]), es[|es| - 1])
  }

  /** Chunks fit a segment, and the ring always has room for what arrives. */
  ghost predicate Bounded(me: Ip, c: Conn, es: seq<Event>) {
    forall k :: 0 <= k < |es| ==> Fits(Run(me, c, es[..k]), es[k])
  }

  predicate Fits(c: Conn, e: Event) {
    match e
    case Arrives(data) => |c.sock.unread| + |data| <= RING - 1
    case Sends(data) => |data| <= TCP_MAX_PAYLOAD
    case Reads(_) => true
  }

  /** The payloads of the segments put on the wire. */
  function Payloads(wire: seq<Out>): seq<byte> {
    if |wire| == 0 then []
    else
      var h := Parse(wire[|wire| - 1].bytes);
      Payloads(wire[..|wire| - 1]) + if h.Header? then h.data else []
  }

  function Start(s: Sock): Conn {
    Conn(s, [], [], [], [])
  }

  /** No byte is lost, repeated or reordered in either direction, and both counters track the streams. */
  ghost predicate Conserved(s: Sock, c: Conn) {
    && c.sock.state == Established && c.sock.remoteIp == s.remoteIp
    && c.returned + c.sock.unread == c.accepted
    && Payloads(c.wire) == c.handed
    && c.sock.seqNo == Plus(s.seqNo, |c.handed|)
    && c.sock.ackNo == Plus(s.ackNo, |c.accepted|)
  }

  lemma {:induction false} StreamsConserved(me: Ip, s: Sock, es: seq<Event>)
    requires s.state == Established && s.unread == [] && Bounded(me, Start(s), es)
    ensures Conserved(s, Run(me, Start(s), es))
    decreases |es|
  {
    if |es| == 0 {
      StartConserves(s);
    } else {
      var n := |es| - 1;
      BoundedPrefix(me, Start(s), es);
      StreamsConserved(me, s, es[..n]);
      HappenConserves(me, s, Run(me, Start(s), es[..n]), es[n]);
    }
  }

  lemma BoundedPrefix(me: Ip, c: Conn, es: seq<Event>)
    requires |es| > 0 && Bounded(me, c, es)
    ensures Bounded(me, c, es[..|es| - 1]) && Fits(Run(me, c, es[..|es| - 1]), es[|es| - 1])
  {
    assert forall k :: 0 <= k < |es| - 1 ==> es[..|es| - 1][..k] == es[..k];
  }

  lemma StartConserves(s: Sock)
    requires s.state == Established && s.unread == []
    ensures Conserved(s, Start(s))
  {}

  lemma HappenConserves(me: Ip, s: Sock, c: Conn, e: Event)
    requires Conserved(s, c) && Fits(c, e)
    ensures Conserved(s, Happen(me, c, e))
  {
    match e {
      case Arrives(data) => ArrivesConserves(me, s, c, data);
      case Sends(data) => SendsConserves(me, s, c, data);
      case Reads(max) => ReadsConserves(me, s, c, max);
    }
  }

  lemma ArrivesConserves(me: Ip, s: Sock, c: Conn, data: seq<byte>)
    requires Conserved(s, c) && Fits(c, Arrives(data))
    ensures Conserved(s, Happen(me, c, Arrives(data)))
  {
    assert c.returned + (c.sock.unread + data) == c.accepted + data;
    PlusPlus(s.ackNo, |c.accepted|, |data|);
    if |data| == 0 {
      assert c.accepted + data == c.accepted;
    }
  }

  lemma SendsConserves(me: Ip, s: Sock, c: Conn, data: seq<byte>)
    requires Conserved(s, c) && |data| <= TCP_MAX_PAYLOAD
    ensures Conserved(s, Happen(me, c, Sends(data)))
  {
    var d := Happen(me, c, Sends(data));
    assert d.sock.seqNo == Plus(s.seqNo, |d.handed|) by {
      PlusPlus(s.seqNo, |c.handed|, |data|);
    }
    assert Payloads(d.wire) == d.handed by {
      WireGrows(me, c.wire, c.sock, data);
    }
    assert d.sock.ackNo == c.sock.ackNo && d.sock.unread == c.sock.unread;
  }

  lemma WireGrows(me: Ip, wire: seq<Out>, s: Sock, data: seq<byte>)
    requires |data| <= TCP_MAX_PAYLOAD
    ensures Payloads(wire + [Sent(me, s, ACK, data)]) == Payloads(wire) + data
  {
    SegmentParses(me, s, ACK, data);
    var more := wire + [Sent(me, s, ACK, data)];
    assert more[..|more| - 1] == wire;
  }

  lemma ReadsConserves(me: Ip, s: Sock, c: Conn, max: nat)
    requires Conserved(s, c)
    ensures Conserved(s, Happen(me, c, Reads(max)))
  {
    var n := Min(max, |c.sock.unread|);
    assert c.sock.unread == c.sock.unread[..n] + c.sock.unread[n..];
    assert c.returned + c.sock.unread[..n] + c.sock.unread[n..] == c.returned + c.sock.unread;
  }

  /** A send reaches the wire whole exactly when it fits one segment; the counter moves regardless. */
  lemma SendWhole(me: Ip, s: Sock, data: seq<byte>)
    requires |data| < 0x1_0000
    ensures var h := Parse(Sent(me, s, ACK, data).bytes);
      h.Header? && (h.data == data <==> |data| <= 1440)
  {
    SegmentParses(me, s, ACK, Capped(data));
  }

  const INITIAL_SEQ: word := 0xABCD_1234

  /** What `tcp_open` and `tcp_connect` leave behind: the SYN is out and counted. */
  ghost predicate Connecting(s: Sock) {
    s.state == SynSent && s.unread == [] && s.seqNo == Plus(INITIAL_SEQ, 1)
  }

  lemma OpenThenDial(me: Ip, n: Net, k: nat, dest: Ip, port: half, local: half)
    requires k < |n.socks|
    ensures Connecting(Dialled(me, Opened(n, k), k, dest, port, local).socks[k])
  {}

  /** The events of a run are the table's own operations on the connection's socket. */
  lemma EventsAreCalls(me: Ip, n: Net, k: nat, c: Conn, data: seq<byte>, max: nat, payload: seq<byte>)
    requires k < |n.socks| && c.sock == n.socks[k] && c.sock.state == Established
    requires ForPort(n.socks, c.sock.localPort) == k && Parse(payload) == InOrder(c.sock, data)
    ensures Handle(me, n, c.sock.remoteIp, payload).socks[k] == Happen(me, c, Arrives(data)).sock
    ensures var w, d := Write(me, n, k, data), Happen(me, c, Sends(data));
      w.socks[k] == d.sock && w.out[|n.out|..] == d.wire[|c.wire|..]
    ensures var (m, got), d := ReadUpTo(n, k, max), Happen(me, c, Reads(max));
      m.socks[k] == d.sock && d.returned == c.returned + got
  {
    assert (n.out + [Sent(me, c.sock, ACK, data)])[|n.out|..] == [Sent(me, c.sock, ACK, data)];
    assert (c.wire + [Sent(me, c.sock, ACK, data)])[|c.wire|..] == [Sent(me, c.sock, ACK, data)];
  }

  /**
   * From the handshake on, over any run: the counters are the two initial numbers plus one plus the
   * bytes sent and accepted, and what was read followed by what is unread is what was accepted.
   */
  lemma ConnectionStreams(me: Ip, s: Sock, src: Ip, h: Header, es: seq<Event>)
    requires Connecting(s) && h.Header? && Has(h.flags, SYN) && Has(h.flags, ACK) && h.ackNo == s.seqNo
    requires Bounded(me, Start(Delivered(s, src, h)), es)
    ensures var c := Run(me, Start(Delivered(s, src, h)), es);
      && c.sock.state == Established
      && c.returned + c.sock.unread == c.accepted && Payloads(c.wire) == c.handed
      && c.sock.seqNo == Plus(INITIAL_SEQ, 1 + |c.handed|)
      && c.sock.ackNo == Plus(h.seqNo, 1 + |c.accepted|)
  {
    var d := Delivered(s, src, h);
    StreamsConserved(me, d, es);
    PlusPlus(INITIAL_SEQ, 1, |Run(me, Start(d), es).handed|);
    PlusPlus(h.seqNo, 1, |Run(me, Start(d), es).accepted|);
  }
}
