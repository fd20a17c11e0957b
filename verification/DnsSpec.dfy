/** DNS messages: the query encoder's format, responses, and the walk over their answers. */
module DnsSpec {
  import opened Bytes
  import opened Cache
  import opened Checksum
  import opened Packets
  import opened SlotTable

  const DOT: byte := 46

  // ----- names -----

  /** The first dot from `i` on, or the end. */
  function DotFrom(s: seq<byte>, i: nat): (k: nat)
    requires i <= |s|
    ensures i <= k <= |s|
    decreases |s| - i
  {
    if i == |s| || s[i] == DOT then i else DotFrom(s, i + 1)
  }

  lemma {:induction false} DotFromIs(s: seq<byte>, i: nat, k: nat)
    requires i <= k <= |s| && (k < |s| ==> s[k] == DOT) && forall j :: i <= j < k ==> s[j] != DOT
    ensures DotFrom(s, i) == k
    decreases |s| - i
  {
    if i < k {
      DotFromIs(s, i + 1, k);
    }
  }

  /** The length as the encoder stores it, cut to eight bits. */
  function LengthByte(k: nat): byte {
    if k < 0x100 then k else k % 0x100
  }

  /** The encoder's reading of a host name: each stretch up to a dot behind its length byte. */
  function Encoded(s: seq<byte>): (e: seq<byte>)
    ensures |e| <= |s| + 1
    decreases |s|
  {
    if |s| == 0 then []
    else
      var k := DotFrom(s, 0);
      [LengthByte(k)] + s[..k] + Encoded(if k < |s| then s[k + 1..] else [])
  }

  /** A label of section 2.3.4 of RFC 1035: 1 to 63 bytes, here without dots. */
  predicate ValidLabel(l: seq<byte>) {
    1 <= |l| <= 63 && DOT !in l
  }

  predicate ValidLabels(ls: seq<seq<byte>>) {
    forall i :: 0 <= i < |ls| ==> ValidLabel(ls[i])
  }

  function Joined(ls: seq<seq<byte>>): seq<byte> {
    if |ls| == 0 then []
    else if |ls| == 1 then ls[0]
    else ls[0] + [DOT] + Joined(ls[1..])
  }

  function LabelBytes(ls: seq<seq<byte>>): seq<byte>
    requires ValidLabels(ls)
  {
    if |ls| == 0 then [] else [|ls[0]| as byte] + ls[0] + LabelBytes(ls[1..])
  }

  /** A dotted name of valid labels is encoded as those labels. */
  lemma {:induction false} NameEncoded(ls: seq<seq<byte>>)
    requires ValidLabels(ls)
    ensures Encoded(Joined(ls)) == LabelBytes(ls)
    decreases |ls|
  {
    PiecesEncoded(ls);
    LabelsArePieces(ls);
  }

  lemma {:induction false} LabelsArePieces(ls: seq<seq<byte>>)
    requires ValidLabels(ls)
    ensures PieceBytes(ls) == LabelBytes(ls)
    decreases |ls|
  {
    if |ls| > 0 {
      LabelsArePieces(ls[1..]);
    }
  }

  /** Each piece behind its length modulo 256. */
  function PieceBytes(ls: seq<seq<byte>>): seq<byte> {
    if |ls| == 0 then [] else [|ls[0]| % 0x100] + ls[0] + PieceBytes(ls[1..])
  }

  ghost predicate Dotless(ls: seq<seq<byte>>) {
    forall i :: 0 <= i < |ls| ==> 46 !in ls[i]
  }

  /** Any host name is encoded as its pieces between dots, empty and overlong ones included, except
      that nothing is made of an empty piece at the end. */
  lemma {:induction false} PiecesEncoded(ls: seq<seq<byte>>)
    requires Dotless(ls)
    ensures |ls| == 0 || ls[|ls| - 1] != [] ==> Encoded(Joined(ls)) == PieceBytes(ls)
    ensures |ls| > 0 ==> Encoded(Joined(ls) + [46]) == PieceBytes(ls)
    decreases |ls|
  {
    if |ls| > 0 {
      var l, rest := ls[0], ls[1..];
      assert PieceBytes(ls) == [LengthByte(|l|)] + l + PieceBytes(rest);
      if rest == [] {
        OnePiece(l);
        assert PieceBytes(ls) == [LengthByte(|l|)] + l && Joined(ls) == l;
      } else {
        PiecesEncoded(rest);
        MorePieces(l, Joined(rest));
        assert rest[|rest| - 1] == ls[|ls| - 1] && Joined(ls) == l + [DOT] + Joined(rest);
      }
    }
  }

  lemma OnePiece(l: seq<byte>)
    requires DOT !in l
    ensures l != [] ==> Encoded(l) == [LengthByte(|l|)] + l
    ensures Encoded(l + [46]) == [LengthByte(|l|)] + l
  {
    if l != [] {
      EncodedLast(l);
    }
    EncodedFirst(l, []);
    assert l + [DOT] + [] == l + [46] && Encoded([]) == [];
  }

  lemma MorePieces(l: seq<byte>, s: seq<byte>)
    requires DOT !in l
    ensures Encoded(l + [DOT] + s) == [LengthByte(|l|)] + l + Encoded(s)
    ensures Encoded(l + [DOT] + s + [46]) == [LengthByte(|l|)] + l + Encoded(s + [46])
  {
    EncodedFirst(l, s);
    EncodedFirst(l, s + [46]);
    assert l + [DOT] + (s + [46]) == l + [DOT] + s + [46];
  }

  lemma EncodedLast(l: seq<byte>)
    requires DOT !in l && l != []
    ensures Encoded(l) == [LengthByte(|l|)] + l
  {
    EncodedStep(l, [], |l|);
    assert Encoded([]) == [];
    assert l[..|l|] == l && [LengthByte(|l|)] + l + [] == [LengthByte(|l|)] + l;
  }

  lemma EncodedFirst(l: seq<byte>, s: seq<byte>)
    requires DOT !in l
    ensures Encoded(l + [DOT] + s) == [LengthByte(|l|)] + l + Encoded(s)
  {
    var w := l + [DOT] + s;
    assert w[|l|] == DOT && forall j :: 0 <= j < |l| ==> w[j] == l[j];
    assert w[|l| + 1..] == s && w[..|l|] == l;
    EncodedStep(w, s, |l|);
  }

  /** One step of the encoding, from the length of the first piece. */
  lemma EncodedStep(w: seq<byte>, rest: seq<byte>, k: nat)
    requires 0 < |w| && k <= |w| && (k < |w| ==> w[k] == DOT) && forall j :: 0 <= j < k ==> w[j] != DOT
    requires rest == if k < |w| then w[k + 1..] else []
    ensures Encoded(w) == [LengthByte(k)] + w[..k] + Encoded(rest)
  {
    DotFromIs(w, 0, k);
  }

  function Query(tid: half, host: seq<byte>): seq<byte> {
    NetBytes(tid) + [1, 0, 0, 1, 0, 0, 0, 0, 0, 0] + Encoded(host) + [0, 0, 1, 0, 1]
  }

  /** The query byte by byte, as in section 4.1 of RFC 1035: the number, recursion desired, one question,
      nothing else, the name, and type and class 1. */
  lemma QueryBytes(tid: half, ls: seq<seq<byte>>)
    requires ValidLabels(ls)
    ensures Query(tid, Joined(ls)) == [tid / 0x100, tid % 0x100, 1, 0, 0, 1, 0, 0, 0, 0, 0, 0] + LabelBytes(ls) + [0, 0, 1, 0, 1]
  {
    NameEncoded(ls);
    var number: seq<byte> := [tid / 0x100, tid % 0x100];
    assert NetBytes(tid) == number;
    assert number + [1, 0, 0, 1, 0, 0, 0, 0, 0, 0] == [tid / 0x100, tid % 0x100, 1, 0, 0, 1, 0, 0, 0, 0, 0, 0];
  }

  // ----- the answer walk -----

  /** A received message, and the memory that follows it. */
  datatype Datagram = Datagram(data: seq<byte>, behind: nat -> byte) {
    function At(i: nat): byte {
      if i < |data| then data[i] else behind(i - |data|)
    }

    function Half(i: nat): half {
      0x100 * At(i) as int + At(i + 1) as int
    }
  }

  /** Length bytes are followed until a zero byte or the end of the message. */
  function SkipName(m: seq<byte>, pos: nat): (r: nat)
    ensures pos <= r
    decreases |m| - pos, |m|
  {
    if pos < |m| && m[pos] != 0 then SkipName(m, pos + m[pos] as int + 1) else pos
  }

  /** Past an answer's name: two bytes for a pointer, else the labels and their end. */
  function AfterName(m: seq<byte>, pos: nat): (r: nat)
    requires pos < |m|
    ensures pos < r
  {
    if m[pos] / 0x40 == 3 then pos + 2 else SkipName(m, pos) + 1
  }

  /** The address the code's walk finds: of the first answer that is an A record of four bytes. The
      fields behind a name are read without asking whether the message holds them. */
  function Answers(d: Datagram, pos: nat, n: nat): Option<Ip>
    decreases n, |d.data|
  {
    if n == 0 || pos + 12 > |d.data| then None
    else
      var q := AfterName(d.data, pos);
      if d.Half(q) == 1 && d.Half(q + 8) == 4 && q + 14 <= |d.data| then Some(d.data[q + 10..q + 14])
      else Answers(d, q + 10 + d.Half(q + 8), n - 1)
  }

  /** The same walk over the message alone: it reports the first read past the end. */
  datatype Walk = OutOfRange | Within(address: Option<Ip>)

  function WalkWithin(m: seq<byte>, pos: nat, n: nat): Walk
    decreases n, |m|
  {
    if n == 0 || pos + 12 > |m| then Within(None)
    else
      var q := AfterName(m, pos);
      if q + 10 > |m| then OutOfRange
      else if NetHalf(m, q) == 1 && NetHalf(m, q + 8) == 4 && q + 14 <= |m| then Within(Some(m[q + 10..q + 14]))
      else WalkWithin(m, q + 10 + NetHalf(m, q + 8), n - 1)
  }

  /** A walk that leaves the message finds nothing. */
  function Found(w: Walk): Option<Ip> {
    match w case Within(a) => a case OutOfRange => None
  }

  lemma HalfInside(d: Datagram, i: nat)
    requires i + 2 <= |d.data|
    ensures d.Half(i) == NetHalf(d.data, i)
  {}

  /** One step of the walk. */
  lemma AnswersNext(d: Datagram, pos: nat, n: nat)
    requires n > 0 && pos + 12 <= |d.data|
    ensures var q := AfterName(d.data, pos);
      Answers(d, pos, n) ==
        if d.Half(q) == 1 && d.Half(q + 8) == 4 && q + 14 <= |d.data| then Some(d.data[q + 10..q + 14])
        else Answers(d, q + 10 + d.Half(q + 8), n - 1)
  {}

  /** A walk that stays inside the message does not depend on what is behind it, and one that leaves it
      finds nothing. */
  lemma {:induction false} WalksAgree(d: Datagram, pos: nat, n: nat)
    ensures Answers(d, pos, n) == Found(WalkWithin(d.data, pos, n))
    decreases n
  {
    if n > 0 && pos + 12 <= |d.data| {
      AnswersNext(d, pos, n);
      var q := AfterName(d.data, pos);
      if q + 10 <= |d.data| {
        assert d.Half(q) == NetHalf(d.data, q) && d.Half(q + 8) == NetHalf(d.data, q + 8) by {
          HalfInside(d, q);
          HalfInside(d, q + 8);
        }
        WalksAgree(d, q + 10 + NetHalf(d.data, q + 8), n - 1);
      } else {
        NothingBehind(d, q + 10 + d.Half(q + 8), n - 1);
      }
    }
  }

  lemma NothingBehind(d: Datagram, pos: nat, n: nat)
    requires pos + 12 > |d.data|
    ensures Answers(d, pos, n) == None
  {}

  /** So for every message, whatever it holds, what lies behind it makes no difference. */
  lemma BehindIrrelevant(tid: half, d: Datagram, e: Datagram, r: Rx)
    requires d.data == e.data
    ensures Receive(tid, d, r) == Receive(tid, e, r)
  {
    if !Foreign(tid, d) && NetHalf(d.data, 6) != 0 {
      WalksAgree(d, SkipName(d.data, 12) + 5, NetHalf(d.data, 6));
      WalksAgree(e, SkipName(d.data, 12) + 5, NetHalf(d.data, 6));
    }
  }

  datatype Rx = Rx(done: bool, result: Ip)

  /** A datagram that is too short or answers another query. */
  predicate Foreign(tid: half, d: Datagram) {
    |d.data| < 12 || NetHalf(d.data, 0) != tid
  }

  /** The address a datagram brings for a query, if any. */
  function Carries(tid: half, d: Datagram): Option<Ip> {
    if Foreign(tid, d) || NetHalf(d.data, 6) == 0 then None
    else Answers(d, SkipName(d.data, 12) + 5, NetHalf(d.data, 6))
  }

  /** The handler: it does not ask whether an answer has been taken already. */
  function Receive(tid: half, d: Datagram, r: Rx): Rx {
    if Foreign(tid, d) then r
    else
      match Carries(tid, d)
      case Some(ip) => Rx(true, ip)
      case None => r.(done := true)
  }

  /** The handler's walk over the message alone. */
  function CarriesWithin(tid: half, m: seq<byte>): Walk {
    if |m| < 12 || NetHalf(m, 0) != tid || NetHalf(m, 6) == 0 then Within(None)
    else WalkWithin(m, SkipName(m, 12) + 5, NetHalf(m, 6))
  }

  lemma CarriesAgree(tid: half, d: Datagram)
    ensures CarriesWithin(tid, d.data).Within? ==> Carries(tid, d) == CarriesWithin(tid, d.data).address
  {
    if !Foreign(tid, d) {
      WalksAgree(d, SkipName(d.data, 12) + 5, NetHalf(d.data, 6));
    }
  }

  /** The bytes of an address record from its type on, inside the message. */
  ghost predicate AddressAt(m: seq<byte>, q: nat, ip: Ip) {
    q + 14 <= |m| && m[q] == 0 && m[q + 1] == 1 && m[q + 8] == 0 && m[q + 9] == 4 && m[q + 10..q + 14] == ip
  }

  lemma {:induction false} AnswersInside(d: Datagram, pos: nat, n: nat)
    ensures Answers(d, pos, n).Some? ==> exists q: nat :: AddressAt(d.data, q, Answers(d, pos, n).value)
    decreases n
  {
    if n > 0 && pos + 12 <= |d.data| {
      var q := AfterName(d.data, pos);
      if d.Half(q) == 1 && d.Half(q + 8) == 4 && q + 14 <= |d.data| {
        assert AddressAt(d.data, q, d.data[q + 10..q + 14]);
      } else {
        AnswersInside(d, q + 10 + d.Half(q + 8), n - 1);
      }
    }
  }

  /** Whatever a datagram looks like: an address taken from it is that of an address record inside it,
      it carries the awaited number, and announces an answer; any such datagram ends the wait. */
  lemma TakenFromMessage(tid: half, d: Datagram, r: Rx)
    ensures var s := Receive(tid, d, r);
      && (s.result != r.result ==> exists q: nat :: AddressAt(d.data, q, s.result))
      && (s != r ==> |d.data| >= 12 && 0x100 * d.data[0] as int + d.data[1] as int == tid)
      && (s.result != r.result ==> d.data[6] != 0 || d.data[7] != 0)
      && (|d.data| >= 12 && 0x100 * d.data[0] as int + d.data[1] as int == tid ==> s.done)
  {
    if !Foreign(tid, d) && NetHalf(d.data, 6) != 0 {
      AnswersInside(d, SkipName(d.data, 12) + 5, NetHalf(d.data, 6));
    }
  }

  // ----- well-formed responses, sections 4.1.1 to 4.1.4 of RFC 1035 -----

  /** A name: labels, then the root or a compression pointer. */
  datatype Name = Rooted(labels: seq<seq<byte>>) | Compressed(labels: seq<seq<byte>>, offset: nat)

  predicate ValidName(n: Name) {
    ValidLabels(n.labels) && (n.Compressed? ==> n.offset < 0x4000)
  }

  function NameBytes(n: Name): (b: seq<byte>)
    requires ValidName(n)
    ensures |b| >= 1
  {
    LabelBytes(n.labels) + if n.Rooted? then [0] else NetBytes(0xC000 + n.offset)
  }

  /** The names the walk understands: uncompressed, or nothing but a pointer. */
  predicate Plain(n: Name) {
    n.Compressed? ==> n.labels == []
  }

  datatype Record = Record(name: Name, rtype: half, rclass: half, ttl: seq<byte>, rdata: seq<byte>)

  predicate ValidRecord(r: Record) {
    ValidName(r.name) && |r.ttl| == 4 && |r.rdata| < 0x1_0000
  }

  function RecordBytes(r: Record): (b: seq<byte>)
    requires ValidRecord(r)
    ensures |b| == |NameBytes(r.name)| + 10 + |r.rdata|
  {
    NameBytes(r.name) + (NetBytes(r.rtype) + NetBytes(r.rclass) + r.ttl + NetBytes(|r.rdata|)) + r.rdata
  }

  predicate ValidRecords(rs: seq<Record>) {
    forall i :: 0 <= i < |rs| ==> ValidRecord(rs[i]) && Plain(rs[i].name)
  }

  function RecordsBytes(rs: seq<Record>): seq<byte>
    requires ValidRecords(rs)
  {
    if |rs| == 0 then [] else RecordBytes(rs[0]) + RecordsBytes(rs[1..])
  }

  predicate IsAddress(r: Record) {
    r.rtype == 1 && |r.rdata| == 4
  }

  function FirstAddress(rs: seq<Record>): Option<Ip> {
    if |rs| == 0 then None else if IsAddress(rs[0]) then Some(rs[0].rdata) else FirstAddress(rs[1..])
  }

  function Head(tid: half, flags: half, n: half, ns: half, ar: half): (h: seq<byte>)
    ensures |h| == 12
  {
    NetBytes(tid) + NetBytes(flags) + NetBytes(1) + NetBytes(n) + NetBytes(ns) + NetBytes(ar)
  }

  /** A response to a question, its answers, and whatever sections follow. */
  function Response(tid: half, flags: half, ns: half, ar: half, ls: seq<seq<byte>>, rs: seq<Record>, rest: seq<byte>): seq<byte>
    requires ValidLabels(ls) && ValidRecords(rs) && |rs| < 0x1_0000
  {
    Head(tid, flags, |rs|, ns, ar) + (LabelBytes(ls) + [0, 0, 1, 0, 1]) + RecordsBytes(rs) + rest
  }

  /** The question of a response to a dotted name is, byte for byte, what the query asked. */
  lemma QuestionEchoed(tid: half, flags: half, ns: half, ar: half, ls: seq<seq<byte>>, rs: seq<Record>, rest: seq<byte>)
    requires ValidLabels(ls) && ValidRecords(rs) && |rs| < 0x1_0000
    ensures var q, m := Query(tid, Joined(ls)), Response(tid, flags, ns, ar, ls, rs, rest);
      && |q| <= |m| && m[12..|q|] == q[12..]
  {
    NameEncoded(ls);
    var front := NetBytes(tid) + [1, 0, 0, 1, 0, 0, 0, 0, 0, 0];
    var question := LabelBytes(ls) + [0, 0, 1, 0, 1];
    assert Query(tid, Joined(ls)) == front + question;
    assert Response(tid, flags, ns, ar, ls, rs, rest) == Head(tid, flags, |rs|, ns, ar) + question + (RecordsBytes(rs) + rest);
  }

  // ----- the walk on well-formed responses -----

  /** `b` is stored at `pos`. */
  ghost predicate Holds(mem: seq<byte>, pos: nat, b: seq<byte>) {
    pos + |b| <= |mem| && forall k :: 0 <= k < |b| ==> mem[pos + k] == b[k]
  }

  lemma HoldsSplit(mem: seq<byte>, pos: nat, a: seq<byte>, b: seq<byte>)
    requires Holds(mem, pos, a + b)
    ensures Holds(mem, pos, a) && Holds(mem, pos + |a|, b)
  {
    forall k | 0 <= k < |a| ensures mem[pos + k] == a[k] {
      assert a[k] == (a + b)[k];
    }
    forall k | 0 <= k < |b| ensures mem[pos + |a| + k] == b[k] {
      assert b[k] == (a + b)[|a| + k];
    }
  }

  lemma HoldsHalf(mem: seq<byte>, pos: nat, h: half)
    requires Holds(mem, pos, NetBytes(h))
    ensures NetHalf(mem, pos) == h
  {
    assert NetHalf(NetBytes(h), 0) == h;
  }

  lemma {:induction false} SkipLabels(m: seq<byte>, pos: nat, ls: seq<seq<byte>>)
    requires ValidLabels(ls) && Holds(m, pos, LabelBytes(ls))
    ensures SkipName(m, pos) == SkipName(m, pos + |LabelBytes(ls)|)
    decreases |ls|
  {
    if |ls| > 0 {
      var front := [|ls[0]| as byte] + ls[0];
      HoldsSplit(m, pos, front, LabelBytes(ls[1..]));
      assert m[pos] == front[0];
      SkipLabels(m, pos + |front|, ls[1..]);
    }
  }

  /**
   * The walk finds the end of an answer's name exactly when the name is uncompressed or a bare
   * pointer; labels followed by a pointer always carry it too far.
   */
  lemma NameSkipExact(m: seq<byte>, pos: nat, n: Name)
    requires ValidName(n) && Holds(m, pos, NameBytes(n))
    ensures AfterName(m, pos) == pos + |NameBytes(n)| <==> Plain(n)
    ensures !Plain(n) ==> AfterName(m, pos) >= pos + |NameBytes(n)| + 192
  {
    var l := LabelBytes(n.labels);
    var end := if n.Rooted? then [0] else NetBytes(0xC000 + n.offset);
    HoldsSplit(m, pos, l, end);
    assert m[pos + |l|] == end[0];
    SkipLabels(m, pos, n.labels);
    if |n.labels| > 0 {
      assert m[pos] == l[0] == |n.labels[0]| as byte;
    }
  }

  lemma RecordFields(m: seq<byte>, pos: nat, r: Record)
    requires ValidRecord(r) && Holds(m, pos, RecordBytes(r))
    ensures var q := pos + |NameBytes(r.name)|;
      && Holds(m, pos, NameBytes(r.name))
      && NetHalf(m, q) == r.rtype && NetHalf(m, q + 8) == |r.rdata|
      && Holds(m, q + 10, r.rdata)
  {
    var nb := NameBytes(r.name);
    var t, c, len := NetBytes(r.rtype), NetBytes(r.rclass), NetBytes(|r.rdata|);
    var q := pos + |nb|;
    HoldsSplit(m, pos, nb + (t + c + r.ttl + len), r.rdata);
    HoldsSplit(m, pos, nb, t + c + r.ttl + len);
    HoldsSplit(m, q, t + c + r.ttl, len);
    assert t + c + r.ttl == t + (c + r.ttl);
    HoldsSplit(m, q, t, c + r.ttl);
    HoldsHalf(m, q, r.rtype);
    HoldsHalf(m, q + 8, |r.rdata|);
  }

  /** One step of the walk over a well-formed record. */
  lemma OneAnswer(m: seq<byte>, pos: nat, r: Record, n: nat)
    requires n > 0 && ValidRecord(r) && Plain(r.name) && Holds(m, pos, RecordBytes(r))
    ensures WalkWithin(m, pos, n) ==
      if IsAddress(r) then Within(Some(r.rdata))
      else if pos + 12 > |m| then Within(None)
      else WalkWithin(m, pos + |RecordBytes(r)|, n - 1)
  {
    RecordFields(m, pos, r);
    NameSkipExact(m, pos, r.name);
    var q := pos + |NameBytes(r.name)|;
    if IsAddress(r) {
      assert m[q + 10..q + 14] == r.rdata;
    }
  }

  /**
   * An address that ends a one-answer message is found exactly when its name is plain; otherwise
   * the walk leaves the message and, whatever is there, finds nothing.
   */
  lemma AddressFoundExactly(d: Datagram, pos: nat, r: Record)
    requires ValidRecord(r) && IsAddress(r)
    requires pos + |RecordBytes(r)| == |d.data| && Holds(d.data, pos, RecordBytes(r))
    ensures Answers(d, pos, 1) == FirstAddress([r]) <==> Plain(r.name)
    ensures WalkWithin(d.data, pos, 1) == OutOfRange <==> !Plain(r.name)
    ensures !Plain(r.name) ==> Answers(d, pos, 1) == None
  {
    RecordFields(d.data, pos, r);
    NameSkipExact(d.data, pos, r.name);
    if Plain(r.name) {
      OneAnswer(d.data, pos, r, 1);
      WalksAgree(d, pos, 1);
    } else {
      var q := AfterName(d.data, pos);
      assert Answers(d, q + 10 + d.Half(q + 8), 0) == None;
    }
  }

  /** The walk over well-formed records stays inside the message and finds the first address. */
  lemma {:induction false} AnswersExact(m: seq<byte>, pos: nat, rs: seq<Record>)
    requires ValidRecords(rs) && Holds(m, pos, RecordsBytes(rs))
    ensures WalkWithin(m, pos, |rs|) == Within(FirstAddress(rs))
    decreases |rs|
  {
    if |rs| > 0 {
      var r := rs[0];
      HoldsSplit(m, pos, RecordBytes(r), RecordsBytes(rs[1..]));
      OneAnswer(m, pos, r, |rs|);
      if !IsAddress(r) {
        if pos + 12 > |m| {
          RecordsAtLeast(rs);
        } else {
          AnswersExact(m, pos + |RecordBytes(r)|, rs[1..]);
        }
      }
    }
  }

  /** Only the last record can be shorter than twelve bytes. */
  lemma RecordsAtLeast(rs: seq<Record>)
    requires ValidRecords(rs) && |rs| > 0
    ensures |RecordsBytes(rs)| < 12 ==> |rs| == 1
  {
    if |rs| > 1 {
      assert |RecordBytes(rs[1])| >= 11 && |RecordBytes(rs[0])| >= 11;
      assert RecordsBytes(rs[1..]) == RecordBytes(rs[1]) + RecordsBytes(rs[2..]);
    }
  }

  /** Where the parts of a response are. */
  lemma ResponseParts(m: seq<byte>, tid: half, flags: half, ns: half, ar: half, ls: seq<seq<byte>>, rs: seq<Record>, rest: seq<byte>)
    requires ValidLabels(ls) && ValidRecords(rs) && |rs| < 0x1_0000
    requires m == Response(tid, flags, ns, ar, ls, rs, rest)
    ensures |m| >= 12 && NetHalf(m, 0) == tid && NetHalf(m, 6) == |rs|
    ensures Holds(m, 12, LabelBytes(ls) + [0]) && Holds(m, 17 + |LabelBytes(ls)|, RecordsBytes(rs))
  {
    var head, question := Head(tid, flags, |rs|, ns, ar), LabelBytes(ls) + [0, 0, 1, 0, 1];
    HoldsSplit(m, 0, head + question + RecordsBytes(rs), rest);
    HoldsSplit(m, 0, head + question, RecordsBytes(rs));
    HoldsSplit(m, 0, head, question);
    HeadFields(m, tid, flags, |rs|, ns, ar);
    QuestionName(m, LabelBytes(ls));
  }

  lemma QuestionName(m: seq<byte>, l: seq<byte>)
    requires Holds(m, 12, l + [0, 0, 1, 0, 1])
    ensures Holds(m, 12, l + [0])
  {
    assert l + [0, 0, 1, 0, 1] == l + [0] + [0, 1, 0, 1];
    HoldsSplit(m, 12, l + [0], [0, 1, 0, 1]);
  }

  /** The question's name ends where its zero byte is. */
  lemma QuestionSkipped(m: seq<byte>, ls: seq<seq<byte>>)
    requires ValidLabels(ls) && Holds(m, 12, LabelBytes(ls) + [0])
    ensures SkipName(m, 12) == 12 + |LabelBytes(ls)|
  {
    var l := LabelBytes(ls);
    HoldsSplit(m, 12, l, [0]);
    assert m[12 + |l|] == [0][0];
    SkipLabels(m, 12, ls);
  }

  /**
   * On a well-formed response the handler never reads past the end, and it finds the first address
   * among the answers.
   */
  lemma ResponseWithin(tid: half, flags: half, ns: half, ar: half, ls: seq<seq<byte>>, rs: seq<Record>, rest: seq<byte>)
    requires ValidLabels(ls) && ValidRecords(rs) && |rs| < 0x1_0000
    ensures CarriesWithin(tid, Response(tid, flags, ns, ar, ls, rs, rest)) == Within(FirstAddress(rs))
  {
    var m := Response(tid, flags, ns, ar, ls, rs, rest);
    ResponseParts(m, tid, flags, ns, ar, ls, rs, rest);
    PartsWalked(tid, m, ls, rs);
  }

  lemma PartsWalked(tid: half, m: seq<byte>, ls: seq<seq<byte>>, rs: seq<Record>)
    requires ValidLabels(ls) && ValidRecords(rs)
    requires |m| >= 12 && NetHalf(m, 0) == tid && NetHalf(m, 6) == |rs|
    requires Holds(m, 12, LabelBytes(ls) + [0]) && Holds(m, 17 + |LabelBytes(ls)|, RecordsBytes(rs))
    ensures CarriesWithin(tid, m) == Within(FirstAddress(rs))
  {
    QuestionSkipped(m, ls);
    AnswersExact(m, 17 + |LabelBytes(ls)|, rs);
  }

  /** So a datagram that is such a response yields its first address, whatever lies behind it. */
  lemma ResponseUnderstood(tid: half, flags: half, ns: half, ar: half, ls: seq<seq<byte>>, rs: seq<Record>,
                           rest: seq<byte>, d: Datagram, r: Rx)
    requires ValidLabels(ls) && ValidRecords(rs) && |rs| < 0x1_0000
    requires d.data == Response(tid, flags, ns, ar, ls, rs, rest)
    ensures !Foreign(tid, d) && Carries(tid, d) == FirstAddress(rs)
    ensures Receive(tid, d, r) == match FirstAddress(rs) case Some(ip) => Rx(true, ip) case None => r.(done := true)
  {
    ResponseWithin(tid, flags, ns, ar, ls, rs, rest);
    CarriesAgree(tid, d);
    ResponseParts(d.data, tid, flags, ns, ar, ls, rs, rest);
  }

  lemma HeadFields(mem: seq<byte>, tid: half, flags: half, n: half, ns: half, ar: half)
    requires Holds(mem, 0, Head(tid, flags, n, ns, ar))
    ensures NetHalf(mem, 0) == tid && NetHalf(mem, 6) == n
  {
    var a, b, c, d := NetBytes(tid), NetBytes(flags), NetBytes(1), NetBytes(n);
    HoldsSplit(mem, 0, a + b + c + d + NetBytes(ns), NetBytes(ar));
    HoldsSplit(mem, 0, a + b + c + d, NetBytes(ns));
    HoldsSplit(mem, 0, a + b + c, d);
    HoldsSplit(mem, 0, a + b, c);
    HoldsSplit(mem, 0, a, b);
    HoldsHalf(mem, 0, tid);
    HoldsHalf(mem, 6, n);
  }
}
