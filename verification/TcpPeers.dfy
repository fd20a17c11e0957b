/** Two hosts with a connection between them: what is written at either end is read at the other. */
module TcpPeers {
  import opened Bytes
  import opened Packets
  import opened TcpSpec

  /** A host, its end of the connection, and what its reader got so far. */
  datatype Host = Host(ip: Ip, net: Net, k: nat, got: seq<byte>) {
    predicate Ok() {
      k < |net.socks|
    }

    function End(): Sock
      requires Ok()
    {
      net.socks[k]
    }
  }

  datatype Pair = Pair(a: Host, b: Host) {
    predicate Ok() {
      a.Ok() && b.Ok()
    }
  }

  function Swap(p: Pair): Pair {
    Pair(p.b, p.a)
  }

  datatype Turn = Send(data: seq<byte>) | Read(max: nat)

  /** A turn of the first or of the second host. */
  datatype Move = Move(atA: bool, turn: Turn)

  function HandleAll(me: Ip, n: Net, src: Ip, outs: seq<Out>): (r: Net)
    ensures |r.socks| == |n.socks|
    decreases |outs|
  {
    if |outs| == 0 then n else HandleAll(me, Handle(me, n, src, outs[0].bytes), src, outs[1..])
  }

  function NewOut(before: Net, after: Net): seq<Out> {
    if |before.out| <= |after.out| then after.out[|before.out|..] else []
  }

  /** The first host's turn: a send is delivered, and what it provokes comes back, before anything else happens. */
  function Act(p: Pair, t: Turn): (q: Pair)
    requires p.Ok()
    ensures q.Ok()
  {
    match t
    case Send(data) =>
      var a := Write(p.a.ip, p.a.net, p.a.k, data);
      var b := HandleAll(p.b.ip, p.b.net, p.a.ip, NewOut(p.a.net, a));
      Pair(p.a.(net := HandleAll(p.a.ip, a, p.b.ip, NewOut(p.b.net, b))), p.b.(net := b))
    case Read(max) =>
      var r := ReadUpTo(p.a.net, p.a.k, max);
      p.(a := p.a.(net := r.0, got := p.a.got + r.1))
  }

  function Play(p: Pair, m: Move): (q: Pair)
    requires p.Ok()
    ensures q.Ok()
  {
    if m.atA then Act(p, m.turn) else Swap(Act(Swap(p), m.turn))
  }

  function PlayAll(p: Pair, ms: seq<Move>): (q: Pair)
    requires p.Ok()
    ensures q.Ok()
  {
    if |ms| == 0 then p else Play(PlayAll(p, ms[..|ms| - 1]), ms[|ms| - 1])
  }

  /** What was written at one end. */
  function Written(ms: seq<Move>, atA: bool): seq<byte> {
    if |ms| == 0 then []
    else Written(ms[..|ms| - 1], atA) + WrittenBy(ms[|ms| - 1], atA)
  }

  function WrittenBy(m: Move, atA: bool): seq<byte> {
    if m.turn.Send? && m.atA == atA then m.turn.data else []
  }

  /** A send fits a segment, and the other end's ring has room for it. */
  ghost predicate Fitting(p: Pair, t: Turn)
    requires p.Ok()
  {
    t.Send? ==> |t.data| <= TCP_MAX_PAYLOAD && |p.b.End().unread| + |t.data| <= RING - 1
  }

  ghost predicate AllFitting(p: Pair, ms: seq<Move>)
    requires p.Ok()
  {
    forall k :: 0 <= k < |ms| ==>
      Fitting(if ms[k].atA then PlayAll(p, ms[..k]) else Swap(PlayAll(p, ms[..k])), ms[k].turn)
  }

  /** Both ends are up, each is the first on its port, and each expects the other's next byte. */
  ghost predicate InStep(p: Pair) {
    && p.Ok() && OneWay(p.a, p.b) && OneWay(p.b, p.a)
  }

  ghost predicate OneWay(a: Host, b: Host)
    requires a.Ok() && b.Ok()
  {
    && a.End().state == Established
    && ForPort(a.net.socks, b.End().remotePort) == a.k
    && b.End().ackNo == a.End().seqNo
  }

  /** Every socket but one is the same. */
  ghost predicate SameElsewhere(a: Host, b: Host) {
    && a.k == b.k && |a.net.socks| == |b.net.socks|
    && forall i :: 0 <= i < |a.net.socks| && i != a.k ==> a.net.socks[i] == b.net.socks[i]
  }

  /** All that a reader got or can still get. */
  function Stream(h: Host): seq<byte>
    requires h.Ok()
  {
    h.got + h.End().unread
  }

  /**
   * Whatever both ends write, in any interleaving with their reads: each reads what the other wrote,
   * in order and once, each acknowledgement number equals the other's sequence number throughout,
   * and no other socket of either host notices.
   */
  lemma {:induction false} EndToEnd(p: Pair, ms: seq<Move>)
    requires InStep(p) && Stream(p.a) == [] && Stream(p.b) == [] && AllFitting(p, ms)
    ensures var q := PlayAll(p, ms);
      && InStep(q) && Stream(q.b) == Written(ms, true) && Stream(q.a) == Written(ms, false)
      && SameElsewhere(p.a, q.a) && SameElsewhere(p.b, q.b)
    decreases |ms|
  {
    if |ms| > 0 {
      var n := |ms| - 1;
      FittingPrefix(p, ms);
      EndToEnd(p, ms[..n]);
      MoveKeeps(PlayAll(p, ms[..n]), ms[n]);
      SameThrough(p.a, PlayAll(p, ms[..n]).a, PlayAll(p, ms).a);
      SameThrough(p.b, PlayAll(p, ms[..n]).b, PlayAll(p, ms).b);
    } else {
      NothingWritten(ms);
    }
  }

  lemma NothingWritten(ms: seq<Move>)
    requires ms == []
    ensures Written(ms, true) == [] && Written(ms, false) == []
  {}

  lemma SameThrough(a: Host, b: Host, c: Host)
    requires SameElsewhere(a, b) && SameElsewhere(b, c)
    ensures SameElsewhere(a, c)
  {}

  lemma FittingPrefix(p: Pair, ms: seq<Move>)
    requires p.Ok() && |ms| > 0 && AllFitting(p, ms)
    ensures AllFitting(p, ms[..|ms| - 1])
    ensures var q, m := PlayAll(p, ms[..|ms| - 1]), ms[|ms| - 1]; Fitting(if m.atA then q else Swap(q), m.turn)
  {
    assert forall k :: 0 <= k < |ms| - 1 ==> ms[..|ms| - 1][..k] == ms[..k];
  }

  lemma MoveKeeps(p: Pair, m: Move)
    requires InStep(p) && Fitting(if m.atA then p else Swap(p), m.turn)
    ensures var q := Play(p, m);
      && InStep(q) && Stream(q.b) == Stream(p.b) + WrittenBy(m, true) && Stream(q.a) == Stream(p.a) + WrittenBy(m, false)
      && SameElsewhere(p.a, q.a) && SameElsewhere(p.b, q.b)
  {
    TurnKeeps(if m.atA then p else Swap(p), m.turn);
  }

  lemma TurnKeeps(p: Pair, t: Turn)
    requires InStep(p) && Fitting(p, t)
    ensures var q := Act(p, t);
      && InStep(q) && Stream(q.b) == Stream(p.b) + (if t.Send? then t.data else []) && Stream(q.a) == Stream(p.a)
      && SameElsewhere(p.a, q.a) && SameElsewhere(p.b, q.b)
  {
    match t {
      case Send(data) =>
        SendResult(p, data);
        SentInStep(p, data);
      case Read(max) =>
        ReadInStep(p, max);
    }
  }

  lemma ReadInStep(p: Pair, max: nat)
    requires InStep(p)
    ensures var q := Act(p, Read(max));
      && InStep(q) && q.b == p.b && Stream(q.a) == Stream(p.a) && SameElsewhere(p.a, q.a)
  {
    var s := p.a.End();
    var m := Min(max, |s.unread|);
    assert s.unread == s.unread[..m] + s.unread[m..];
    assert p.a.got + s.unread[..m] + s.unread[m..] == p.a.got + s.unread;
    SamePorts(p.a.net.socks, p.a.k, s.(unread := s.unread[m..]), p.b.End().remotePort);
  }

  /** A segment from the other end of a connection goes to the right socket. */
  lemma HandleOne(me: Ip, n: Net, src: Ip, from: Sock, flags: byte, data: seq<byte>, k: nat)
    requires |data| <= TCP_MAX_PAYLOAD && k < |n.socks| && ForPort(n.socks, from.remotePort) == k
    ensures var h := Header(from.localPort, from.remotePort, from.seqNo, if Has(flags, ACK) then from.ackNo else 0, flags, data);
      var after := Delivered(n.socks[k], src, h);
      HandleAll(me, n, src, [Sent(src, from, flags, data)]) == Net(n.socks[k := after], n.out + Answer(me, n.socks[k], after, h))
  {
    SegmentParses(src, from, flags, data);
    var o := [Sent(src, from, flags, data)];
    assert o[1..] == [];
  }

  /** An in-order data segment at a socket with room. */
  lemma DataDelivered(s: Sock, src: Ip, h: Header)
    requires h.Header? && h.flags == ACK && s.state == Established && s.ackNo == h.seqNo && |s.unread| + |h.data| < RING
    ensures Delivered(s, src, h) == s.(unread := s.unread + h.data, ackNo := Plus(h.seqNo, |h.data|))
  {
    if |h.data| == 0 {
      assert s.unread + h.data == s.unread;
    }
  }

  /** The ends after a send: the writer counts it, the other end has it unread and acknowledged. */
  function Wrote(s: Sock, data: seq<byte>): Sock {
    s.(seqNo := Plus(s.seqNo, |data|))
  }

  function Took(r: Sock, s: Sock, data: seq<byte>): Sock {
    r.(unread := r.unread + data, ackNo := Plus(s.seqNo, |data|))
  }

  /** A send reaches the other end, and the answer changes nothing at the writer. */
  lemma SendResult(p: Pair, data: seq<byte>)
    requires InStep(p) && Fitting(p, Send(data))
    ensures var q, s, r := Act(p, Send(data)), p.a.End(), p.b.End();
      && q.a == p.a.(net := Write(p.a.ip, p.a.net, p.a.k, data))
      && q.b.net.socks == p.b.net.socks[p.b.k := Took(r, s, data)]
      && q.b == p.b.(net := q.b.net)
  {
    var s, r := p.a.End(), p.b.End();
    var a := Write(p.a.ip, p.a.net, p.a.k, data);
    assert NewOut(p.a.net, a) == [Sent(p.a.ip, s, ACK, data)];
    HandleOne(p.b.ip, p.b.net, p.a.ip, s, ACK, data, p.b.k);
    DataDelivered(r, p.a.ip, Header(s.localPort, s.remotePort, s.seqNo, s.ackNo, ACK, data));
    var b := HandleAll(p.b.ip, p.b.net, p.a.ip, NewOut(p.a.net, a));
    assert b.socks[p.b.k] == Took(r, s, data);
    if |data| > 0 {
      assert NewOut(p.b.net, b) == [Sent(p.b.ip, Took(r, s, data), ACK, [])];
      SamePorts(p.a.net.socks, p.a.k, Wrote(s, data), r.remotePort);
      AnswerIgnored(p.a.ip, a, p.b.ip, Took(r, s, data), p.a.k);
    } else {
      assert NewOut(p.b.net, b) == [];
    }
  }

  /** A bare acknowledgement leaves an established socket, and so the table, as it is. */
  lemma AnswerIgnored(me: Ip, n: Net, src: Ip, from: Sock, k: nat)
    requires k < |n.socks| && ForPort(n.socks, from.remotePort) == k && n.socks[k].state == Established
    ensures HandleAll(me, n, src, [Sent(src, from, ACK, [])]) == n
  {
    HandleOne(me, n, src, from, ACK, [], k);
    assert n.socks[k := n.socks[k]] == n.socks && n.out + [] == n.out;
  }

  lemma SentInStep(p: Pair, data: seq<byte>)
    requires InStep(p) && Fitting(p, Send(data))
    requires var q := Act(p, Send(data));
      && q.a == p.a.(net := Write(p.a.ip, p.a.net, p.a.k, data))
      && q.b.net.socks == p.b.net.socks[p.b.k := Took(p.b.End(), p.a.End(), data)]
      && q.b == p.b.(net := q.b.net)
    ensures var q := Act(p, Send(data));
      && InStep(q) && Stream(q.b) == Stream(p.b) + data && Stream(q.a) == Stream(p.a)
      && SameElsewhere(p.a, q.a) && SameElsewhere(p.b, q.b)
  {
    var s, r := p.a.End(), p.b.End();
    SamePorts(p.a.net.socks, p.a.k, Wrote(s, data), r.remotePort);
    SamePorts(p.b.net.socks, p.b.k, Took(r, s, data), s.remotePort);
    assert p.b.got + (r.unread + data) == p.b.got + r.unread + data;
  }
}
