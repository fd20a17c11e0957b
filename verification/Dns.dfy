/** The resolver: queries out, the answer handler, and the cache in front. */
module Dns {
  import opened Bytes
  import opened Cache
  import opened Checksum
  import opened DnsSpec
  import opened Packets
  import opened SlotTable

  const DNS_CACHE_SIZE := 8
  const PKT_SIZE := 512
  const ZERO: Ip := [0, 0, 0, 0]

  // ----- waiting -----

  /** The handler's state after all datagrams of one poll. */
  function ReceiveAll(tid: half, r: Rx, ds: seq<Datagram>): Rx
    decreases |ds|
  {
    if |ds| == 0 then r else ReceiveAll(tid, Receive(tid, ds[0], r), ds[1..])
  }

  /** The wait looks for an answer between polls only; running out of polls is the timeout. */
  function Polled(tid: half, r: Rx, polls: seq<seq<Datagram>>): Rx
    decreases |polls|
  {
    if |polls| == 0 || r.done then r else Polled(tid, ReceiveAll(tid, r, polls[0]), polls[1..])
  }

  /** The last address that a poll's datagrams bring for a query. */
  function LastAddress(tid: half, ds: seq<Datagram>): Option<Ip>
    decreases |ds|
  {
    if |ds| == 0 then None
    else
      var later := LastAddress(tid, ds[1..]);
      if later.Some? then later else Carries(tid, ds[0])
  }

  predicate AllForeign(tid: half, ds: seq<Datagram>) {
    forall i :: 0 <= i < |ds| ==> Foreign(tid, ds[i])
  }

  /** Datagrams for other queries change nothing. */
  lemma {:induction false} ForeignIgnored(tid: half, r: Rx, ds: seq<Datagram>)
    requires AllForeign(tid, ds)
    ensures ReceiveAll(tid, r, ds) == r && LastAddress(tid, ds) == None
    decreases |ds|
  {
    if |ds| > 0 {
      ForeignIgnored(tid, r, ds[1..]);
    }
  }

  lemma {:induction false} ForeignPolls(tid: half, r: Rx, before: seq<seq<Datagram>>, rest: seq<seq<Datagram>>)
    requires !r.done && forall i :: 0 <= i < |before| ==> AllForeign(tid, before[i])
    ensures Polled(tid, r, before + rest) == Polled(tid, r, rest)
    decreases |before|
  {
    var all := before + rest;
    if |before| == 0 {
      assert all == rest;
    } else {
      assert all[0] == before[0] && all[1..] == before[1..] + rest;
      ForeignIgnored(tid, r, before[0]);
      ForeignPolls(tid, r, before[1..], rest);
    }
  }

  lemma {:induction false} ReceiveConcat(tid: half, r: Rx, a: seq<Datagram>, b: seq<Datagram>)
    ensures ReceiveAll(tid, r, a + b) == ReceiveAll(tid, ReceiveAll(tid, r, a), b)
    decreases |a|
  {
    if |a| == 0 {
      assert a + b == b;
    } else {
      assert (a + b)[0] == a[0] && (a + b)[1..] == a[1..] + b;
      ReceiveConcat(tid, Receive(tid, a[0], r), a[1..], b);
    }
  }

  /** Once answered, the rest of the poll still counts: its last address replaces the result. */
  lemma {:induction false} LastAddressWins(tid: half, r: Rx, ds: seq<Datagram>)
    requires r.done
    ensures ReceiveAll(tid, r, ds) == Rx(true, OrElse(LastAddress(tid, ds), r.result))
    decreases |ds|
  {
    if |ds| > 0 {
      LastAddressWins(tid, Receive(tid, ds[0], r), ds[1..]);
    }
  }

  function OrElse(o: Option<Ip>, ip: Ip): Ip {
    match o case Some(x) => x case None => ip
  }

  /** The polls in which the first datagram for the query is still to come. */
  ghost predicate AnsweredBy(tid: half, before: seq<seq<Datagram>>, pre: seq<Datagram>) {
    AllForeign(tid, pre) && forall i :: 0 <= i < |before| ==> AllForeign(tid, before[i])
  }

  /** The wait ends with the poll of the first datagram for the query; the last address in it counts. */
  lemma FirstAnswerEnds(tid: half, before: seq<seq<Datagram>>, pre: seq<Datagram>, d: Datagram, post: seq<Datagram>, after: seq<seq<Datagram>>)
    requires AnsweredBy(tid, before, pre) && !Foreign(tid, d)
    ensures Polled(tid, Rx(false, ZERO), before + ([pre + ([d] + post)] + after)) ==
      Rx(true, OrElse(LastAddress(tid, post), OrElse(Carries(tid, d), ZERO)))
  {
    var start, poll := Rx(false, ZERO), pre + ([d] + post);
    ForeignPolls(tid, start, before, [poll] + after);
    PollOnce(tid, start, poll, after);
    ReceiveConcat(tid, start, pre, [d] + post);
    ForeignIgnored(tid, start, pre);
    OnePoll(tid, start, d, post);
    LastAddressWins(tid, Receive(tid, d, start), post);
  }

  /**
   * The wait ends with the poll that brings the first response. Its outcome is that response's
   * first address if and only if no later datagram of the same poll brings another one; datagrams
   * for other queries and all later polls do not matter.
   */
  lemma {:induction false} LookupResolves(tid: half, flags: half, ns: half, ar: half, ls: seq<seq<byte>>, rs: seq<Record>, rest: seq<byte>,
                       before: seq<seq<Datagram>>, pre: seq<Datagram>, d: Datagram, post: seq<Datagram>, after: seq<seq<Datagram>>)
    requires ValidLabels(ls) && ValidRecords(rs) && |rs| < 0x1_0000
    requires d.data == Response(tid, flags, ns, ar, ls, rs, rest) && AnsweredBy(tid, before, pre)
    ensures var r, ip := Polled(tid, Rx(false, ZERO), before + ([pre + ([d] + post)] + after)), OrElse(FirstAddress(rs), ZERO);
      && r == Rx(true, OrElse(LastAddress(tid, post), ip))
      && (r.result == ip <==> LastAddress(tid, post) in {None, Some(ip)})
  {
    ResponseUnderstood(tid, flags, ns, ar, ls, rs, rest, d, Rx(false, ZERO));
    FirstAnswerEnds(tid, before, pre, d, post, after);
  }

  /** With nothing but datagrams for other queries behind it, the response decides. */
  lemma {:induction false} LookupUndisturbed(tid: half, flags: half, ns: half, ar: half, ls: seq<seq<byte>>, rs: seq<Record>, rest: seq<byte>,
                          before: seq<seq<Datagram>>, pre: seq<Datagram>, d: Datagram, post: seq<Datagram>, after: seq<seq<Datagram>>)
    requires ValidLabels(ls) && ValidRecords(rs) && |rs| < 0x1_0000
    requires d.data == Response(tid, flags, ns, ar, ls, rs, rest) && AnsweredBy(tid, before, pre) && AllForeign(tid, post)
    ensures Polled(tid, Rx(false, ZERO), before + ([pre + ([d] + post)] + after)) == Rx(true, OrElse(FirstAddress(rs), ZERO))
  {
    LookupResolves(tid, flags, ns, ar, ls, rs, rest, before, pre, d, post, after);
    ForeignIgnored(tid, Rx(true, ZERO), post);
  }

  /** A one-answer response with this address for the root name. */
  function Reply(tid: half, ip: Ip): Datagram {
    Datagram(Response(tid, 0x8180, 0, 0, [], [Record(Rooted([]), 1, 1, [0, 0, 0, 60], ip)], []), _ => 0)
  }

  /** Two replies in one poll: the second address is the one returned. In two polls it is the first. */
  lemma SecondReplyOverwrites(tid: half)
    ensures var a, b := Reply(tid, [1, 2, 3, 4]), Reply(tid, [5, 6, 7, 8]);
      && Polled(tid, Rx(false, ZERO), [[a, b]]) == Rx(true, [5, 6, 7, 8])
      && Polled(tid, Rx(false, ZERO), [[a], [b]]) == Rx(true, [1, 2, 3, 4])
  {
    var start := Rx(false, ZERO);
    var a, b := Reply(tid, [1, 2, 3, 4]), Reply(tid, [5, 6, 7, 8]);
    ReplyUnderstood(tid, [1, 2, 3, 4], start);
    ReplyUnderstood(tid, [5, 6, 7, 8], Rx(true, [1, 2, 3, 4]));
    var first, second := Rx(true, [1, 2, 3, 4]), Rx(true, [5, 6, 7, 8]);
    OnePoll(tid, start, a, [b]);
    OnePoll(tid, first, b, []);
    OnePoll(tid, start, a, []);
    PollOnce(tid, start, [a] + [b], []);
    PollOnce(tid, start, [a] + [], [[b]]);
    assert [a] + [b] == [a, b] && [[a, b]] + [] == [[a, b]];
    assert [a] + [] == [a] && [[a]] + [[b]] == [[a], [b]];
    assert Polled(tid, first, [[b]]) == first && Polled(tid, second, []) == second;
  }

  lemma OnePoll(tid: half, r: Rx, d: Datagram, ds: seq<Datagram>)
    ensures ReceiveAll(tid, r, [d] + ds) == ReceiveAll(tid, Receive(tid, d, r), ds)
    ensures ReceiveAll(tid, r, []) == r
  {
    assert ([d] + ds)[1..] == ds;
  }

  lemma PollOnce(tid: half, r: Rx, ds: seq<Datagram>, polls: seq<seq<Datagram>>)
    requires !r.done
    ensures Polled(tid, r, [ds] + polls) == Polled(tid, ReceiveAll(tid, r, ds), polls)
  {
    assert ([ds] + polls)[1..] == polls;
  }

  lemma ReplyUnderstood(tid: half, ip: Ip, r: Rx)
    ensures Receive(tid, Reply(tid, ip), r) == Rx(true, ip)
  {
    var rs := [Record(Rooted([]), 1, 1, [0, 0, 0, 60], ip)];
    ResponseUnderstood(tid, 0x8180, 0, 0, [], rs, [], Reply(tid, ip), r);
  }

  // ----- lookups -----

  /** Cached names are cut to 63 bytes. */
  function Cut(name: seq<byte>): (c: seq<byte>)
    ensures |c| <= 63 && (c == name <==> |name| <= 63)
  {
    if |name| <= 63 then name else name[..63]
  }

  ghost predicate ShortKeys(t: seq<Cell<seq<byte>, Ip>>) {
    forall i :: 0 <= i < |t| && t[i].Bound? ==> |t[i].key| <= 63 && t[i].value != ZERO
  }

  /** The resolver's variables, the cache cells and the query datagrams sent so far. */
  datatype State = State(server: Ip, tid: half, rx: Rx, cells: seq<Cell<seq<byte>, Ip>>, out: seq<(Ip, seq<byte>)>)

  /**
   * A cached name costs nothing. Otherwise one query goes out under the next number, the wait runs
   * over what arrives, and a non-zero address is cached and returned.
   */
  function LookupStep(s: State, host: seq<byte>, polls: seq<seq<Datagram>>): (r: (Ip, State))
    requires |s.cells| > 0
    ensures |r.1.cells| == |s.cells|
  {
    match Lookup(s.cells, host)
    case Some(ip) => (ip, s)
    case None =>
      var tid := (s.tid + 1) % 0x1_0000;
      var rx := Polled(tid, Rx(false, ZERO), polls);
      var ip := if rx.done then rx.result else ZERO;
      var cells := if ip == ZERO then s.cells else Store(s.cells, host, Cut(host), ip);
      (ip, State(s.server, tid, rx, cells, s.out + [(s.server, Query(tid, host))]))
  }

  /**
   * What a lookup of an uncached name returns. With the first response to the number sent in poll
   * `pre + [d] + post`, it is the last address that the rest of that poll brings, else the first one
   * of the response, else zero; a non-zero one is found in the cache afterwards if the name has at
   * most 63 bytes, and zero leaves the cache alone.
   */
  lemma {:induction false} LookupReturns(s: State, host: seq<byte>, flags: half, ns: half, ar: half, ls: seq<seq<byte>>, rs: seq<Record>, rest: seq<byte>,
                      before: seq<seq<Datagram>>, pre: seq<Datagram>, d: Datagram, post: seq<Datagram>, after: seq<seq<Datagram>>)
    requires |s.cells| > 0 && ShortKeys(s.cells) && Lookup(s.cells, host) == None
    requires ValidLabels(ls) && ValidRecords(rs) && |rs| < 0x1_0000
    requires var tid := (s.tid + 1) % 0x1_0000;
      d.data == Response(tid, flags, ns, ar, ls, rs, rest) && AnsweredBy(tid, before, pre)
    ensures var (ip, r) := LookupStep(s, host, before + ([pre + ([d] + post)] + after));
      && ip == OrElse(LastAddress((s.tid + 1) % 0x1_0000, post), OrElse(FirstAddress(rs), [0, 0, 0, 0]))
      && (ip != [0, 0, 0, 0] && |host| <= 63 ==> Lookup(r.cells, host) == Some(ip))
      && (ip == [0, 0, 0, 0] ==> r.cells == s.cells)
  {
    var tid := (s.tid + 1) % 0x1_0000;
    LookupResolves(tid, flags, ns, ar, ls, rs, rest, before, pre, d, post, after);
    var (ip, r) := LookupStep(s, host, before + ([pre + ([d] + post)] + after));
    if ip != ZERO {
      CachedName(s.cells, host, ip);
    }
  }

  /** Without a datagram for the number sent, the lookup returns zero and caches nothing. */
  lemma LookupTimesOut(s: State, host: seq<byte>, polls: seq<seq<Datagram>>)
    requires |s.cells| > 0 && Lookup(s.cells, host) == None
    requires forall i :: 0 <= i < |polls| ==> AllForeign((s.tid + 1) % 0x1_0000, polls[i])
    ensures var (ip, r) := LookupStep(s, host, polls); ip == [0, 0, 0, 0] && r.cells == s.cells
  {
    ForeignPolls((s.tid + 1) % 0x1_0000, Rx(false, ZERO), polls, []);
    assert polls + [] == polls;
  }

  /** The query that goes out carries, in its first two bytes, the number whose responses are awaited;
      so a response that echoes them and the question resolves the very query sent. */
  lemma {:induction false} QueryIsAnswered(s: State, ls: seq<seq<byte>>, polls: seq<seq<Datagram>>, d: Datagram, flags: half, ns: half, ar: half,
                        rs: seq<Record>, rest: seq<byte>)
    requires |s.cells| > 0 && ShortKeys(s.cells) && Lookup(s.cells, Joined(ls)) == None
    requires ValidLabels(ls) && ValidRecords(rs) && |rs| < 0x1_0000
    requires var out := LookupStep(s, Joined(ls), polls).1.out;
      |out| > 0 && |out[|out| - 1].1| >= 2 &&
      d.data == Response(NetHalf(out[|out| - 1].1, 0), flags, ns, ar, ls, rs, rest)
    ensures LookupStep(s, Joined(ls), polls).1.out ==
      s.out + [(s.server, [d.data[0], d.data[1], 1, 0, 0, 1, 0, 0, 0, 0, 0, 0] + LabelBytes(ls) + [0, 0, 1, 0, 1])]
    ensures LookupStep(s, Joined(ls), [[d]]).0 == OrElse(FirstAddress(rs), [0, 0, 0, 0])
  {
    var tid := (s.tid + 1) % 0x1_0000;
    var q := Query(tid, Joined(ls));
    var out := LookupStep(s, Joined(ls), polls).1.out;
    assert out[|out| - 1] == (s.server, q);
    QueryBytes(tid, ls);
    assert NetHalf(q, 0) == tid;
    assert d.data[..2] == NetBytes(tid);
    assert d.data[0] == d.data[..2][0] && d.data[1] == d.data[..2][1];
    LookupReturns(s, Joined(ls), flags, ns, ar, ls, rs, rest, [], [], d, [], []);
    var none: seq<Datagram>, never: seq<seq<Datagram>> := [], [];
    assert none + ([d] + none) == [d] && never + ([[d]] + never) == [[d]];
  }

  lemma LookupKeepsShort(s: State, host: seq<byte>, polls: seq<seq<Datagram>>)
    requires |s.cells| > 0 && ShortKeys(s.cells)
    ensures ShortKeys(LookupStep(s, host, polls).1.cells)
  {}

  /** A looked-up name is in the cache afterwards exactly when it has at most 63 bytes. */
  lemma CachedName(t: seq<Cell<seq<byte>, Ip>>, name: seq<byte>, ip: Ip)
    requires |t| > 0 && ShortKeys(t)
    ensures Lookup(Store(t, name, Cut(name), ip), name) == Some(ip) <==> |name| <= 63
    ensures |name| > 63 ==> Lookup(Store(t, name, Cut(name), ip), name) == None
  {
    FoundUncut(t, name, Cut(name), ip);
  }

  /**
   * After a successful lookup, a second one for the same name returns the same address without a
   * query if the name has at most 63 bytes, and sends another query if it is longer.
   */
  lemma SecondLookup(s: State, host: seq<byte>, polls: seq<seq<Datagram>>, later: seq<seq<Datagram>>)
    requires |s.cells| > 0 && ShortKeys(s.cells) && LookupStep(s, host, polls).0 != ZERO
    ensures var (ip, once) := LookupStep(s, host, polls);
      var (ip2, twice) := LookupStep(once, host, later);
      && (|host| <= 63 ==> ip2 == ip && twice == once)
      && (twice.out == once.out <==> |host| <= 63)
  {
    var (ip, once) := LookupStep(s, host, polls);
    var (ip2, twice) := LookupStep(once, host, later);
    match Lookup(s.cells, host) {
      case Some(v) => FoundIsShort(s.cells, host);
      case None => CachedName(s.cells, host, ip);
    }
    if |host| > 63 {
      assert |twice.out| == |once.out| + 1;
    }
  }

  /** An overlong name leaves its trace under its first 63 bytes: a lookup of those, unless cached
      already, is then answered with the other name's address. */
  lemma PrefixAnswered(t: seq<Cell<seq<byte>, Ip>>, name: seq<byte>, ip: Ip)
    requires |t| > 0 && ShortKeys(t) && |name| > 63 && Lookup(t, name[..63]) == None
    ensures Lookup(Store(t, name, Cut(name), ip), name[..63]) == Some(ip)
  {
    var k := Slot(t, name);
    var r := Store(t, name, Cut(name), ip);
    forall i | 0 <= i < k
      ensures !(r[i].Bound? && r[i].key == name[..63])
    {
      assert r[i] == t[i];
    }
    LookupAt(r, k);
  }

  lemma FoundIsShort(t: seq<Cell<seq<byte>, Ip>>, name: seq<byte>)
    requires ShortKeys(t) && Lookup(t, name).Some?
    ensures |name| <= 63
  {
    var k :| 0 <= k < |t| && t[k].Bound? && t[k].key == name;
  }

  lemma PieceWritten(was: seq<byte>, host: seq<byte>, from: nat, dot: nat, p: nat)
    requires from < |host| && from <= dot <= |host| && (dot < |host| ==> host[dot] == DOT)
    requires forall j :: from <= j < dot ==> host[j] != DOT
    requires p == if dot < |host| then dot + 1 else dot
    ensures was + ([LengthByte(dot - from)] + host[from..dot]) + Encoded(host[p..]) == was + Encoded(host[from..])
    ensures |Encoded(host[from..])| == 1 + (dot - from) + |Encoded(host[p..])|
  {
    var w, rest, k := host[from..], host[p..], dot - from;
    assert w[..k] == host[from..dot];
    assert rest == if k < |w| then w[k + 1..] else [];
    EncodedStep(w, rest, k);
    assert was + ([LengthByte(k)] + w[..k] + Encoded(rest)) == was + ([LengthByte(k)] + w[..k]) + Encoded(rest);
  }

  class Resolver {
    var server: Ip
    var tid: half
    var rx: Rx
    const cache: Cache<seq<byte>, Ip>
    /** Query datagrams, oldest first. */
    var out: seq<(Ip, seq<byte>)>

    ghost predicate Valid()
      reads cache.cells
    {
      cache.cells.Length == DNS_CACHE_SIZE && ShortKeys(cache.cells[..])
    }

    ghost function View(): State
      reads this, cache.cells
    {
      State(server, tid, rx, cache.cells[..], out)
    }

    constructor ()
      ensures Valid() && fresh(cache) && fresh(cache.cells)
      ensures tid == 0 && rx == Rx(false, ZERO) && out == [] && server == [10, 0, 2, 3]
      ensures CacheInv(cache.cells[..]) && ToMap(cache.cells[..]) == map[] && cache.cells.Length == 8
    {
      server, tid, rx, out := [10, 0, 2, 3], 0, Rx(false, ZERO), [];
      cache := new Cache<seq<byte>, Ip>(DNS_CACHE_SIZE);
      new;
      NothingBound(cache.cells[..]);
    }

    /** Writes the piece of the name that starts at `from`; there has to be room for the rest of it. */
    method WritePiece(pkt: array<byte>, start: nat, host: seq<byte>, from: nat) returns (pos: nat, p: nat)
      requires from < |host| && start + |Encoded(host[from..])| <= pkt.Length
      modifies pkt
      ensures from < p <= |host| && start < pos <= pkt.Length
      ensures pos + |Encoded(host[p..])| == start + |Encoded(host[from..])|
      ensures pkt[..pos] + Encoded(host[p..]) == old(pkt[..start]) + Encoded(host[from..])
    {
      var dot;
      dot, p := FindPiece(host, from, pkt[..start]);
      PutPiece(pkt, start, host, from, dot);
      pos := start + (dot - from) + 1;
    }

    /** The piece of the name that starts at `from` ends at `dot`; the next one starts at `p`. */
    method FindPiece(host: seq<byte>, from: nat, ghost was: seq<byte>) returns (dot: nat, p: nat)
      requires from < |host|
      ensures from <= dot <= p <= |host| && from < p
      ensures was + ([LengthByte(dot - from)] + host[from..dot]) + Encoded(host[p..]) == was + Encoded(host[from..])
      ensures |Encoded(host[from..])| == 1 + (dot - from) + |Encoded(host[p..])|
    {
      dot := from;
      while dot < |host| && host[dot] != DOT
        invariant from <= dot <= |host| && forall j :: from <= j < dot ==> host[j] != DOT
      {
        dot := dot + 1;
      }
      p := if dot < |host| then dot + 1 else dot;
      PieceWritten(was, host, from, dot, p);
    }

    method PutPiece(pkt: array<byte>, start: nat, host: seq<byte>, from: nat, dot: nat)
      requires from <= dot <= |host| && start + (dot - from) + 1 <= pkt.Length
      modifies pkt
      ensures pkt[..start + (dot - from) + 1] == old(pkt[..start]) + ([LengthByte(dot - from)] + host[from..dot])
    {
      var piece: seq<byte> := [LengthByte(dot - from)] + host[from..dot];
      Put(pkt, start, piece);
      assert pkt[..start + |piece|] == pkt[..start] + pkt[start..start + |piece|];
    }

    /** Writes the query. Nothing checks that it fits the buffer, so the caller has to. */
    method BuildQuery(host: seq<byte>) returns (query: seq<byte>)
      requires |Query(tid, host)| <= PKT_SIZE
      ensures query == Query(tid, host)
    {
      var pkt := new byte[PKT_SIZE](_ => 0);
      var head: seq<byte> := NetBytes(tid) + [1, 0, 0, 1, 0, 0, 0, 0, 0, 0];
      Put(pkt, 0, head);
      var pos, p := 12, 0;
      assert pkt[..12] == pkt[0..0 + |head|] && host[0..] == host;
      while p < |host|
        invariant p <= |host| && 12 <= pos && pos + |Encoded(host[p..])| == 12 + |Encoded(host)|
        invariant pkt[..pos] + Encoded(host[p..]) == head + Encoded(host)
      {
        pos, p := WritePiece(pkt, pos, host, p);
      }
      assert host[p..] == [];
      Put(pkt, pos, [0, 0, 1, 0, 1]);
      assert pkt[..pos + 5] == pkt[..pos] + pkt[pos..pos + 5];
      query := pkt[..pos + 5];
    }

    /** One datagram on the query port. */
    method DnsRx(d: Datagram)
      modifies this`rx
      ensures rx == Receive(tid, d, old(rx))
    {
      if |d.data| < 12 {
        return;
      }
      if NetHalf(d.data, 0) != tid {
        return;
      }
      var ancount := NetHalf(d.data, 6);
      if ancount == 0 {
        rx := rx.(done := true);
        return;
      }
      var pos := Skip(d.data, 12);
      var found := FindAddress(d, pos + 5, ancount);
      match found {
        case Some(ip) => rx := Rx(true, ip);
        case None => rx := rx.(done := true);
      }
    }

    /** The loop over the answers. */
    method FindAddress(d: Datagram, start: nat, ancount: nat) returns (found: Option<Ip>)
      ensures found == Answers(d, start, ancount)
    {
      var pos: nat, i: nat := start, 0;
      while i < ancount && pos + 12 <= |d.data|
        invariant i <= ancount
        invariant Answers(d, pos, ancount - i) == Answers(d, start, ancount)
      {
        AnswersNext(d, pos, ancount - i);
        pos := PastName(d.data, pos);
        var rtype, rdlen := d.Half(pos), d.Half(pos + 8);
        pos := pos + 10;
        if rtype == 1 && rdlen == 4 && pos + 4 <= |d.data| {
          return Some(d.data[pos..pos + 4]);
        }
        pos := pos + rdlen;
        i := i + 1;
      }
      return None;
    }

    method PastName(m: seq<byte>, start: nat) returns (pos: nat)
      requires start < |m|
      ensures pos == AfterName(m, start)
    {
      if m[start] / 0x40 == 3 {
        pos := start + 2;
      } else {
        pos := Skip(m, start);
        pos := pos + 1;
      }
    }

    method Skip(m: seq<byte>, start: nat) returns (pos: nat)
      ensures pos == SkipName(m, start)
    {
      pos := start;
      while pos < |m| && m[pos] != 0
        invariant SkipName(m, pos) == SkipName(m, start)
        decreases |m| - pos
      {
        pos := pos + m[pos] as int + 1;
      }
    }

    /** A query that has to be sent must fit its buffer; nothing checks that. */
    method DnsLookup(host: seq<byte>, polls: seq<seq<Datagram>>) returns (ip: Ip)
      requires Valid()
      requires Lookup(cache.cells[..], host).None? ==> |Query((tid + 1) % 0x1_0000, host)| <= PKT_SIZE
      modifies this`tid, this`rx, this`out, cache.cells
      ensures Valid()
      ensures (ip, View()) == LookupStep(old(View()), host, polls)
    {
      LookupKeepsShort(View(), host, polls);
      var cached := cache.Find(host);
      if cached.Some? {
        return cached.value;
      }
      tid := (tid + 1) % 0x1_0000;
      var query := BuildQuery(host);
      rx := Rx(false, ZERO);
      out := out + [(server, query)];
      Wait(polls);
      if !rx.done {
        return ZERO;
      }
      if rx.result[0] != 0 || rx.result[1] != 0 || rx.result[2] != 0 || rx.result[3] != 0 {
        cache.Put(host, Cut(host), rx.result);
        return rx.result;
      }
      assert rx.result == ZERO;
      return ZERO;
    }

    /** The waiting loop: each round handles everything one poll brings. */
    method Wait(polls: seq<seq<Datagram>>)
      modifies this`rx
      ensures rx == Polled(tid, old(rx), polls)
    {
      var i := 0;
      assert polls[0..] == polls;
      while i < |polls| && !rx.done
        invariant i <= |polls|
        invariant Polled(tid, rx, polls[i..]) == Polled(tid, old(rx), polls)
      {
        assert polls[i..][1..] == polls[i + 1..];
        EthPoll(polls[i]);
        i := i + 1;
      }
    }

    method EthPoll(ds: seq<Datagram>)
      modifies this`rx
      ensures rx == ReceiveAll(tid, old(rx), ds)
    {
      var i := 0;
      assert ds[0..] == ds;
      while i < |ds|
        invariant i <= |ds|
        invariant ReceiveAll(tid, rx, ds[i..]) == ReceiveAll(tid, old(rx), ds)
      {
        assert ds[i..][1..] == ds[i + 1..];
        DnsRx(ds[i]);
        i := i + 1;
      }
    }
  }

  lemma NothingBound(t: seq<Cell<seq<byte>, Ip>>)
    requires CacheInv(t) && ToMap(t) == map[]
    ensures ShortKeys(t)
  {
    forall i | 0 <= i < |t| && t[i].Bound? ensures false {
      ToMapAt(t, i);
    }
  }
}
