/** What callers can rely on when they open sockets and wait for connections. */
module TcpWaits {
  import opened Bytes
  import opened Packets
  import opened TcpSpec

  // ----- opening -----

  lemma {:induction false} FirstClosedExact(vs: seq<Sock>)
    ensures var k := FirstClosed(vs);
      && (k < |vs| ==> vs[k].state == Closed)
      && forall i :: 0 <= i < k ==> vs[i].state != Closed
    decreases |vs|
  {
    if |vs| > 0 && vs[0].state != Closed {
      FirstClosedExact(vs[1..]);
    }
  }

  /** The scan finds the same socket again exactly while that socket is still free. */
  lemma {:induction false} SetAtFirst(vs: seq<Sock>, k: nat, s: Sock)
    requires k == FirstClosed(vs) < |vs|
    ensures FirstClosed(vs[k := s]) == k <==> s.state == Closed
    decreases |vs|
  {
    if k > 0 {
      assert vs[k := s][1..] == vs[1..][k - 1 := s];
      SetAtFirst(vs[1..], k - 1, s);
    }
  }

  /** Opening twice returns another socket exactly when the first one has been dialled in between. */
  lemma SecondOpen(me: Ip, n: Net, dialled: bool, dest: Ip, port: half, local: half)
    requires FirstClosed(n.socks) < |n.socks|
    ensures var k := FirstClosed(n.socks);
      var m := if dialled then Dialled(me, Opened(n, k), k, dest, port, local) else Opened(n, k);
      FirstClosed(m.socks) != k <==> dialled
  {
    var k := FirstClosed(n.socks);
    FirstClosedExact(n.socks);
    var o := Opened(n, k);
    SetAtFirst(n.socks, k, o.socks[k]);
    if dialled {
      SetAtFirst(o.socks, k, Dialled(me, o, k, dest, port, local).socks[k]);
    }
  }

  /** The failing input: on the table that `tcp_init` leaves, two opens in a row both return socket 0. */
  lemma TwoOpensAlias(s: Sock)
    requires s.state == Closed
    ensures var n := Net([s, s, s, s], []);
      FirstClosed(n.socks) == 0 && FirstClosed(Opened(n, 0).socks) == 0 && Opened(Opened(n, 0), 0) == Opened(n, 0)
  {
    var n := Net([s, s, s, s], []);
    assert Opened(Opened(n, 0), 0).socks == Opened(n, 0).socks;
  }

  /** The calls on a table. */
  datatype Call = Opens | Dials(k: nat, dest: Ip, port: half, local: half) | Writes(k: nat, data: seq<byte>)
    | ReadsFrom(k: nat, max: nat) | HangsUp(k: nat) | Gets(arrival: Arrival)

  function Do(me: Ip, n: Net, c: Call): (r: Net)
    ensures |r.socks| == |n.socks|
  {
    match c
    case Opens => if FirstClosed(n.socks) < |n.socks| then Opened(n, FirstClosed(n.socks)) else n
    case Dials(k, dest, port, local) => if k < |n.socks| then Dialled(me, n, k, dest, port, local) else n
    case Writes(k, data) => if k < |n.socks| then Write(me, n, k, data) else n
    case ReadsFrom(k, max) => if k < |n.socks| then ReadUpTo(n, k, max).0 else n
    case HangsUp(k) => if k < |n.socks| then HungUp(me, n, k) else n
    case Gets(a) => Handle(me, n, a.0, a.1)
  }

  function DoAll(me: Ip, n: Net, cs: seq<Call>): (r: Net)
    ensures |r.socks| == |n.socks|
    decreases |cs|
  {
    if |cs| == 0 then n else DoAll(me, Do(me, n, cs[0]), cs[1..])
  }

  /** Nothing but dialling takes a free socket: over any other calls it stays free. */
  lemma {:induction false} FreeUntilDialled(me: Ip, n: Net, k: nat, cs: seq<Call>)
    requires k < |n.socks| && n.socks[k].state == Closed
    requires forall i :: 0 <= i < |cs| && cs[i].Dials? ==> cs[i].k != k
    ensures DoAll(me, n, cs).socks[k].state == Closed
    decreases |cs|
  {
    if |cs| > 0 {
      assert Do(me, n, cs[0]).socks[k].state == Closed;
      FreeUntilDialled(me, Do(me, n, cs[0]), k, cs[1..]);
    }
  }

  /** So until its socket is dialled, whatever else happens, no later open gets past it. */
  lemma OpenNotReserved(me: Ip, n: Net, cs: seq<Call>)
    requires FirstClosed(n.socks) < |n.socks|
    requires forall i :: 0 <= i < |cs| && cs[i].Dials? ==> cs[i].k != FirstClosed(n.socks)
    ensures FirstClosed(DoAll(me, Opened(n, FirstClosed(n.socks)), cs).socks) <= FirstClosed(n.socks)
  {
    var k := FirstClosed(n.socks);
    FirstClosedExact(n.socks);
    FreeUntilDialled(me, Opened(n, k), k, cs);
    FirstClosedExact(DoAll(me, Opened(n, k), cs).socks);
  }

  // ----- waiting for a connection -----

  /** No other socket in use shares the port of socket `k`. */
  ghost predicate Sole(vs: seq<Sock>, k: nat) {
    k < |vs| && forall i :: 0 <= i < |vs| && i != k ==> vs[i].state == Closed || vs[i].localPort != vs[k].localPort
  }

  predicate For(port: half, a: Arrival) {
    Parse(a.1).Header? && Parse(a.1).dstPort == port
  }

  /** A segment that completes a handshake, and one that ends a connection. */
  predicate Accepts(port: half, a: Arrival) {
    For(port, a) && Has(Parse(a.1).flags, SYN) && Has(Parse(a.1).flags, ACK)
  }

  predicate Ends(port: half, a: Arrival) {
    For(port, a) && (Has(Parse(a.1).flags, RST) || Has(Parse(a.1).flags, FIN))
  }

  /** What one segment does to a socket that is alone on its port. */
  lemma HandleSole(me: Ip, n: Net, k: nat, a: Arrival)
    requires Sole(n.socks, k)
    ensures var r, s := Handle(me, n, a.0, a.1), n.socks[k];
      && Sole(r.socks, k) && r.socks[k].localPort == s.localPort
      && r.socks[k] == if For(s.localPort, a) && s.state != Closed then Delivered(s, a.0, Parse(a.1)) else s
  {}

  lemma {:induction false} ClosedStays(me: Ip, n: Net, k: nat, arrived: seq<Arrival>)
    requires Sole(n.socks, k) && n.socks[k].state == Closed
    ensures HandleEach(me, n, arrived).socks[k].state == Closed
    decreases |arrived|
  {
    if |arrived| > 0 {
      HandleSole(me, n, k, arrived[0]);
      ClosedStays(me, Handle(me, n, arrived[0].0, arrived[0].1), k, arrived[1..]);
    }
  }

  ghost predicate NoneEnds(port: half, arrived: seq<Arrival>) {
    forall i :: 0 <= i < |arrived| ==> !Ends(port, arrived[i])
  }

  ghost predicate NoneAccepts(port: half, arrived: seq<Arrival>) {
    forall i :: 0 <= i < |arrived| ==> !Accepts(port, arrived[i])
  }

  /** A connection survives what arrives exactly when nothing of it resets or finishes it. */
  lemma {:induction false} StaysUp(me: Ip, n: Net, k: nat, arrived: seq<Arrival>)
    requires Sole(n.socks, k) && n.socks[k].state == Established
    ensures HandleEach(me, n, arrived).socks[k].state == Established <==> NoneEnds(n.socks[k].localPort, arrived)
    decreases |arrived|
  {
    if |arrived| > 0 {
      var a, port, rest := arrived[0], n.socks[k].localPort, arrived[1..];
      var r := Handle(me, n, a.0, a.1);
      HandleSole(me, n, k, a);
      if Ends(port, a) {
        ClosedStays(me, r, k, rest);
      } else {
        StaysUp(me, r, k, rest);
        assert NoneEnds(port, arrived) <==> NoneEnds(port, rest) by {
          assert forall i :: 0 <= i < |rest| ==> rest[i] == arrived[i + 1];
          assert forall i :: 0 < i < |arrived| ==> arrived[i] == rest[i - 1];
        }
      }
    }
  }

  /** A half-open connection is left alone by everything but its acceptance. */
  lemma {:induction false} Unaccepted(me: Ip, n: Net, k: nat, arrived: seq<Arrival>)
    requires Sole(n.socks, k) && n.socks[k].state == SynSent && NoneAccepts(n.socks[k].localPort, arrived)
    ensures var r := HandleEach(me, n, arrived); Sole(r.socks, k) && r.socks[k] == n.socks[k]
    decreases |arrived|
  {
    if |arrived| > 0 {
      HandleSole(me, n, k, arrived[0]);
      Unaccepted(me, Handle(me, n, arrived[0].0, arrived[0].1), k, arrived[1..]);
    }
  }

  lemma {:induction false} UnacceptedPolls(me: Ip, n: Net, k: nat, before: seq<seq<Arrival>>, rest: seq<seq<Arrival>>) returns (m: Net)
    requires Sole(n.socks, k) && n.socks[k].state == SynSent
    requires forall i :: 0 <= i < |before| ==> NoneAccepts(n.socks[k].localPort, before[i])
    ensures |m.socks| == |n.socks| && Sole(m.socks, k) && m.socks[k] == n.socks[k]
    ensures Poll(me, n, k, ForConnection, before + rest) == Poll(me, m, k, ForConnection, rest)
    decreases |before|
  {
    var all := before + rest;
    if |before| == 0 {
      assert all == rest;
      m := n;
    } else {
      assert all[0] == before[0] && all[1..] == before[1..] + rest;
      Unaccepted(me, n, k, before[0]);
      m := UnacceptedPolls(me, HandleEach(me, n, before[0]), k, before[1..], rest);
    }
  }

  lemma {:induction false} HandleConcat(me: Ip, n: Net, a: seq<Arrival>, b: seq<Arrival>)
    ensures HandleEach(me, n, a + b) == HandleEach(me, HandleEach(me, n, a), b)
    decreases |a|
  {
    if |a| == 0 {
      assert a + b == b;
    } else {
      assert (a + b)[0] == a[0] && (a + b)[1..] == a[1..] + b;
      HandleConcat(me, Handle(me, n, a[0].0, a[0].1), a[1..], b);
    }
  }

  /** The poll that brings an acceptance leaves the connection up exactly when nothing after it ends it. */
  lemma AcceptingPoll(me: Ip, n: Net, k: nat, pre: seq<Arrival>, a: Arrival, post: seq<Arrival>)
    requires Sole(n.socks, k) && n.socks[k].state == SynSent
    requires NoneAccepts(n.socks[k].localPort, pre) && Accepts(n.socks[k].localPort, a)
    ensures var s := HandleEach(me, n, pre + ([a] + post)).socks[k];
      s.state != SynSent && (s.state == Established <==> NoneEnds(n.socks[k].localPort, post))
  {
    HandleConcat(me, n, pre, [a] + post);
    Unaccepted(me, n, k, pre);
    var m := HandleEach(me, n, pre);
    assert ([a] + post)[0] == a && ([a] + post)[1..] == post;
    HandleSole(me, m, k, a);
    var r := Handle(me, m, a.0, a.1);
    StaysUp(me, r, k, post);
    NeverSynSent(me, r, k, post);
  }

  lemma {:induction false} NeverSynSent(me: Ip, n: Net, k: nat, arrived: seq<Arrival>)
    requires k < |n.socks| && n.socks[k].state != SynSent
    ensures HandleEach(me, n, arrived).socks[k].state != SynSent
    decreases |arrived|
  {
    if |arrived| > 0 {
      NeverSynSent(me, Handle(me, n, arrived[0].0, arrived[0].1), k, arrived[1..]);
    }
  }

  /**
   * Waiting for a connection ends with the poll that brings the acceptance. The connection is then
   * up if and only if no later segment of the same poll resets or finishes it; what came before
   * without accepting, and all later polls, do not matter.
   */
  lemma ConnectResolves(me: Ip, n: Net, k: nat, before: seq<seq<Arrival>>, pre: seq<Arrival>, a: Arrival, post: seq<Arrival>, after: seq<seq<Arrival>>)
    requires Sole(n.socks, k) && n.socks[k].state == SynSent
    requires forall i :: 0 <= i < |before| ==> NoneAccepts(n.socks[k].localPort, before[i])
    requires NoneAccepts(n.socks[k].localPort, pre) && Accepts(n.socks[k].localPort, a)
    ensures Poll(me, n, k, ForConnection, before + ([pre + ([a] + post)] + after)).socks[k].state == Established <==>
      NoneEnds(n.socks[k].localPort, post)
  {
    var poll := pre + ([a] + post);
    var m := UnacceptedPolls(me, n, k, before, [poll] + after);
    AcceptingPoll(me, m, k, pre, a, post);
    assert ([poll] + after)[0] == poll && ([poll] + after)[1..] == after;
  }

  /** An acceptance followed by a reset: in one poll the connection is gone, in two polls it is reported. */
  lemma ResetOvertakes(me: Ip, n: Net, k: nat, src: Ip, from: Sock)
    requires Sole(n.socks, k) && n.socks[k].state == SynSent && from.remotePort == n.socks[k].localPort
    ensures var x, y := (src, Segment(src, from, SYN + ACK, [])), (src, Segment(src, from, RST, []));
      && Poll(me, n, k, ForConnection, [[x, y]]).socks[k].state == Closed
      && Poll(me, n, k, ForConnection, [[x], [y]]).socks[k].state == Established
  {
    var x, y := (src, Segment(src, from, SYN + ACK, [])), (src, Segment(src, from, RST, []));
    ResetParses(src, from, n.socks[k].localPort);
    ConnectResolves(me, n, k, [], [], x, [y], []);
    ConnectResolves(me, n, k, [], [], x, [], [[y]]);
    AcceptingPoll(me, n, k, [], x, [y]);
    var both := [] + ([x] + [y]);
    assert both == [x, y] && [] + ([both] + []) == [[x, y]];
    assert [] + ([x] + []) == [x] && [] + ([[] + ([x] + [])] + [[y]]) == [[x], [y]];
    assert Poll(me, n, k, ForConnection, [both]) == HandleEach(me, n, both);
    assert Ends(n.socks[k].localPort, [y][0]);
  }

  lemma ResetParses(src: Ip, from: Sock, port: half)
    requires from.remotePort == port
    ensures Accepts(port, (src, Segment(src, from, SYN + ACK, [])))
    ensures Ends(port, (src, Segment(src, from, RST, []))) && !Accepts(port, (src, Segment(src, from, RST, [])))
    ensures !Ends(port, (src, Segment(src, from, SYN + ACK, [])))
  {
    SegmentParses(src, from, SYN + ACK, []);
    SegmentParses(src, from, RST, []);
  }

  // ----- waiting for data -----

  /** The payload that segments for a port bring. */
  function Carried(port: half, arrived: seq<Arrival>): seq<byte>
    decreases |arrived|
  {
    if |arrived| == 0 then []
    else Brought(port, arrived[0]) + Carried(port, arrived[1..])
  }

  function Brought(port: half, a: Arrival): seq<byte> {
    if For(port, a) then Parse(a.1).data else []
  }

  /** What one poll brings is appended to what is unread, as long as it fits. */
  lemma {:induction false} DataArrives(me: Ip, n: Net, k: nat, arrived: seq<Arrival>)
    requires Sole(n.socks, k) && n.socks[k].state == Established && NoneEnds(n.socks[k].localPort, arrived)
    requires |n.socks[k].unread| + |Carried(n.socks[k].localPort, arrived)| <= 4095
    ensures var r, s := HandleEach(me, n, arrived), n.socks[k];
      && Sole(r.socks, k) && r.socks[k].state == Established && r.socks[k].localPort == s.localPort
      && r.socks[k].unread == s.unread + Carried(s.localPort, arrived)
    decreases |arrived|
  {
    if |arrived| > 0 {
      var a, port, rest := arrived[0], n.socks[k].localPort, arrived[1..];
      var was, all, r := n.socks[k].unread, Carried(port, arrived), Handle(me, n, a.0, a.1);
      var own, later := Brought(port, a), Carried(port, rest);
      assert all == own + later;
      NoneEndsTail(port, arrived);
      assert Sole(r.socks, k) && r.socks[k].state == Established && r.socks[k].localPort == port && r.socks[k].unread == was + own by {
        ArrivalKeeps(me, n, k, a);
      }
      DataArrives(me, r, k, rest);
      assert was + own + later == was + all;
    }
  }

  lemma NoneEndsTail(port: half, arrived: seq<Arrival>)
    requires |arrived| > 0 && NoneEnds(port, arrived)
    ensures !Ends(port, arrived[0]) && NoneEnds(port, arrived[1..])
  {
    assert forall i :: 0 <= i < |arrived[1..]| ==> arrived[1..][i] == arrived[i + 1];
  }

  lemma ArrivalKeeps(me: Ip, n: Net, k: nat, a: Arrival)
    requires Sole(n.socks, k) && n.socks[k].state == Established && !Ends(n.socks[k].localPort, a)
    requires |n.socks[k].unread| + |Brought(n.socks[k].localPort, a)| <= 4095
    ensures var r, s := Handle(me, n, a.0, a.1), n.socks[k];
      && Sole(r.socks, k) && r.socks[k].state == Established && r.socks[k].localPort == s.localPort
      && r.socks[k].unread == s.unread + Brought(s.localPort, a)
  {
    HandleSole(me, n, k, a);
    OneArrives(n.socks[k], a);
  }

  lemma OneArrives(s: Sock, a: Arrival)
    requires s.state == Established && !Ends(s.localPort, a)
    requires For(s.localPort, a) ==> |s.unread| + |Parse(a.1).data| <= 4095
    ensures For(s.localPort, a) ==>
      var d := Delivered(s, a.0, Parse(a.1));
      d.state == Established && d.localPort == s.localPort && d.unread == s.unread + Parse(a.1).data
  {
    if For(s.localPort, a) && |Parse(a.1).data| == 0 {
      assert s.unread + Parse(a.1).data == s.unread;
    }
  }

  /** Polls that bring a port no data and no end of its connection. */
  ghost predicate Quiet(port: half, polls: seq<seq<Arrival>>) {
    forall i :: 0 <= i < |polls| ==> NoneEnds(port, polls[i]) && Carried(port, polls[i]) == []
  }

  lemma {:induction false} QuietPolls(me: Ip, n: Net, k: nat, before: seq<seq<Arrival>>, rest: seq<seq<Arrival>>) returns (m: Net)
    requires Sole(n.socks, k) && n.socks[k].state == Established && n.socks[k].unread == [] && Quiet(n.socks[k].localPort, before)
    ensures |m.socks| == |n.socks| && Sole(m.socks, k) && m.socks[k].state == Established && m.socks[k].unread == []
    ensures m.socks[k].localPort == n.socks[k].localPort
    ensures Poll(me, n, k, ForData, before + rest) == Poll(me, m, k, ForData, rest)
    decreases |before|
  {
    var all := before + rest;
    if |before| == 0 {
      assert all == rest;
      m := n;
    } else {
      assert all[0] == before[0] && all[1..] == before[1..] + rest;
      DataArrives(me, n, k, before[0]);
      m := QuietPolls(me, HandleEach(me, n, before[0]), k, before[1..], rest);
    }
  }

  /**
   * Waiting for data ends with the first poll that brings any: the caller gets the first `max` bytes
   * of all that the poll brought, in order, and the rest stays unread. Later polls are not touched.
   */
  lemma ReceiveResolves(me: Ip, n: Net, k: nat, max: nat, before: seq<seq<Arrival>>, poll: seq<Arrival>, after: seq<seq<Arrival>>)
    requires Sole(n.socks, k) && n.socks[k].state == Established && n.socks[k].unread == [] && Quiet(n.socks[k].localPort, before)
    requires NoneEnds(n.socks[k].localPort, poll) && 1 <= |Carried(n.socks[k].localPort, poll)| <= 4095
    ensures var (r, got) := ReadUpTo(Poll(me, n, k, ForData, before + ([poll] + after)), k, max);
      var all := Carried(n.socks[k].localPort, poll);
      && got == (if max < |all| then all[..max] else all)
      && r.socks[k].unread == (if max < |all| then all[max..] else [])
      && r.socks[k].state == Established
  {
    var m := QuietPolls(me, n, k, before, [poll] + after);
    DataArrives(me, m, k, poll);
    assert ([poll] + after)[0] == poll && ([poll] + after)[1..] == after;
    var all := Carried(n.socks[k].localPort, poll);
    assert [] + all == all;
    var last := HandleEach(me, m, poll);
    assert Poll(me, last, k, ForData, after) == last;
    assert all[..|all|] == all && all[|all|..] == [];
  }

  /** Data that is unread already is returned without a poll, and quiet polls return nothing. */
  lemma ReceiveAtOnce(me: Ip, n: Net, k: nat, polls: seq<seq<Arrival>>)
    requires Sole(n.socks, k) && n.socks[k].state == Established
    ensures n.socks[k].unread != [] ==> Poll(me, n, k, ForData, polls) == n
    ensures n.socks[k].unread == [] && Quiet(n.socks[k].localPort, polls) ==> Poll(me, n, k, ForData, polls).socks[k].unread == []
  {
    if n.socks[k].unread == [] && Quiet(n.socks[k].localPort, polls) {
      var m := QuietPolls(me, n, k, polls, []);
      assert polls + [] == polls;
    }
  }
}
