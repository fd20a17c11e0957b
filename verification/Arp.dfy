/** Address resolution: what ARP packets do, and how a sender finds the hardware address it needs. */
module Arp {
  import opened Bytes
  import opened Cache
  import opened Checksum
  import opened Packets
  import opened SlotTable

  const ARP_CACHE_SIZE := 16
  const ARP_REQUEST: half := 1
  const ARP_REPLY: half := 2
  const NO_MAC: Mac := [0, 0, 0, 0, 0, 0]

  function ArpPacket(op: half, senderMac: Mac, senderIp: Ip, targetMac: Mac, targetIp: Ip): (p: seq<byte>)
    ensures |p| == 28
  {
    NetBytes(1) + NetBytes(ETH_TYPE_IPV4) + [6, 4] + NetBytes(op) + senderMac + senderIp + targetMac + targetIp
  }

  /** The bitwise and of the low `n` bits. */
  function AndBits(a: nat, b: nat, n: nat): (r: nat)
    ensures r <= a
    decreases n, a
  {
    if n == 0 then 0 else 2 * AndBits(a / 2, b / 2, n - 1) + if a % 2 == 1 && b % 2 == 1 then 1 else 0
  }

  function And(a: byte, b: byte): byte {
    AndBits(a, b, 8)
  }

  predicate SameSubnet(a: Ip, b: Ip, mask: Ip) {
    forall i :: 0 <= i < 4 ==> And(a[i], mask[i]) == And(b[i], mask[i])
  }

  /** With the default mask, hosts share a subnet exactly when their first three bytes agree. */
  lemma DefaultSubnet(a: Ip, b: Ip)
    ensures SameSubnet(a, b, [255, 255, 255, 0]) <==> a[..3] == b[..3]
  {
    forall i | 0 <= i < 4
      ensures And(a[i], 255) == a[i] && And(b[i], 255) == b[i] && And(a[i], 0) == 0 == And(b[i], 0)
    {
      MaskedByte(a[i]);
      MaskedByte(b[i]);
    }
    var mask: Ip := [255, 255, 255, 0];
    assert mask[0] == mask[1] == mask[2] == 255 && mask[3] == 0;
    assert a[..3] == b[..3] <==> a[0] == b[0] && a[1] == b[1] && a[2] == b[2];
  }

  lemma MaskedByte(x: byte)
    ensures And(x, 255) == x && And(x, 0) == 0
  {
    AndOnes(x, 8);
    AndZero(x, 8);
  }

  /** The number whose low `n` bits are set. */
  function Ones(n: nat): nat {
    if n == 0 then 0 else 2 * Ones(n - 1) + 1
  }

  lemma {:induction false} AndOnes(a: nat, n: nat)
    requires a <= Ones(n)
    ensures AndBits(a, Ones(n), n) == a
    decreases n
  {
    if n > 0 {
      Halves(a);
      OddHalf(Ones(n - 1));
      AndOnes(a / 2, n - 1);
    }
  }

  lemma Halves(a: nat)
    ensures a == 2 * (a / 2) + a % 2
  {}

  lemma OddHalf(m: nat)
    ensures (2 * m + 1) / 2 == m && (2 * m + 1) % 2 == 1
  {}

  lemma {:induction false} AndZero(a: nat, n: nat)
    ensures AndBits(a, 0, n) == 0
    decreases n
  {
    if n > 0 {
      AndZero(a / 2, n - 1);
    }
  }

  function Bit(a: nat, i: nat): nat {
    if i == 0 then a % 2 else Bit(a / 2, i - 1)
  }

  lemma {:induction false} AndBit(a: nat, b: nat, n: nat, i: nat)
    requires i < n
    ensures Bit(AndBits(a, b, n), i) == 1 <==> Bit(a, i) == 1 && Bit(b, i) == 1
    decreases n
  {
    HalfOfAnd(a, b, n);
    if i > 0 {
      AndBit(a / 2, b / 2, n - 1, i - 1);
    }
  }

  lemma HalfOfAnd(a: nat, b: nat, n: nat)
    requires n > 0
    ensures AndBits(a, b, n) / 2 == AndBits(a / 2, b / 2, n - 1)
    ensures AndBits(a, b, n) % 2 == 1 <==> a % 2 == 1 && b % 2 == 1
  {}

  lemma {:induction false} BitIsBinary(a: nat, i: nat)
    ensures Bit(a, i) in {0, 1}
  {
    if i > 0 {
      BitIsBinary(a / 2, i - 1);
    }
  }

  /** Numbers of `n` bits are equal exactly when all their bits are. */
  lemma {:induction false} SameBits(a: nat, b: nat, n: nat)
    requires a <= Ones(n) && b <= Ones(n)
    requires forall i :: 0 <= i < n ==> Bit(a, i) == Bit(b, i)
    ensures a == b
    decreases n
  {
    if n > 0 {
      Halves(a);
      Halves(b);
      assert Bit(a, 0) == Bit(b, 0);
      forall i | 0 <= i < n - 1 ensures Bit(a / 2, i) == Bit(b / 2, i) {
        assert Bit(a, i + 1) == Bit(b, i + 1);
      }
      SameBits(a / 2, b / 2, n - 1);
    }
  }

  lemma AndByteBits(a: byte, m: byte)
    ensures forall j :: 0 <= j < 8 ==> (Bit(And(a, m), j) == 1 <==> Bit(a, j) == 1 && Bit(m, j) == 1)
    ensures forall j :: 0 <= j < 8 ==> Bit(And(a, m), j) in {0, 1} && Bit(a, j) in {0, 1} && Bit(m, j) in {0, 1}
  {
    forall j | 0 <= j < 8
      ensures Bit(And(a, m), j) == 1 <==> Bit(a, j) == 1 && Bit(m, j) == 1
      ensures Bit(And(a, m), j) in {0, 1} && Bit(a, j) in {0, 1} && Bit(m, j) in {0, 1}
    {
      AndBit(a, m, 8, j);
      BitIsBinary(And(a, m), j);
      BitIsBinary(a, j);
      BitIsBinary(m, j);
    }
  }

  ghost predicate AgreeWhere(a: byte, b: byte, m: byte) {
    forall j :: 0 <= j < 8 && Bit(m, j) == 1 ==> Bit(a, j) == Bit(b, j)
  }

  lemma MaskedEqual(a: byte, b: byte, m: byte)
    ensures And(a, m) == And(b, m) <==> AgreeWhere(a, b, m)
  {
    AndByteBits(a, m);
    AndByteBits(b, m);
    if AgreeWhere(a, b, m) {
      assert Ones(8) == 255;
      forall j | 0 <= j < 8 ensures Bit(And(a, m), j) == Bit(And(b, m), j) {}
      SameBits(And(a, m), And(b, m), 8);
    } else {
      var j :| 0 <= j < 8 && Bit(m, j) == 1 && Bit(a, j) != Bit(b, j);
      assert Bit(And(a, m), j) != Bit(And(b, m), j);
    }
  }

  /** Whatever the mask, hosts share a subnet exactly when their addresses agree in every bit that it sets. */
  lemma SubnetExact(a: Ip, b: Ip, mask: Ip)
    ensures SameSubnet(a, b, mask) <==> forall i :: 0 <= i < 4 ==> AgreeWhere(a[i], b[i], mask[i])
  {
    forall i | 0 <= i < 4
      ensures And(a[i], mask[i]) == And(b[i], mask[i]) <==> AgreeWhere(a[i], b[i], mask[i])
    {
      MaskedEqual(a[i], b[i], mask[i]);
    }
  }

  /** A host on the link: its addresses, its ARP cache and the frames it has sent. */
  datatype Station = Station(ip: Ip, mac: Mac, up: bool, gateway: Ip, subnet: Ip, cells: seq<Cell<Ip, Mac>>, sent: seq<seq<byte>>)

  function SendFrame(s: Station, dest: Mac, etype: half, payload: seq<byte>): Station {
    s.(sent := s.sent + if s.up && |payload| + 14 <= TX_BUF_SIZE then [EthFrame(dest, s.mac, etype, payload)] else [])
  }

  /** A packet teaches its sender's address, and a request for this host is answered. */
  function ArpIn(s: Station, p: seq<byte>): (r: Station)
    requires |s.cells| > 0
    ensures |r.cells| == |s.cells| && |r.sent| >= |s.sent|
  {
    if |p| < 28 then s
    else
      var senderMac: Mac, senderIp: Ip := p[8..14], p[14..18];
      var learned := s.(cells := Store(s.cells, senderIp, senderIp, senderMac));
      if NetHalf(p, 6) == ARP_REQUEST && p[24..28] == s.ip
      then SendFrame(learned, senderMac, ETH_TYPE_ARP, ArpPacket(ARP_REPLY, s.mac, s.ip, senderMac, senderIp))
      else learned
  }

  predicate IsArp(f: seq<byte>) {
    |f| >= 14 && NetHalf(f, 12) == ETH_TYPE_ARP
  }

  function FrameIn(s: Station, f: seq<byte>): (r: Station)
    requires |s.cells| > 0
    ensures |r.cells| == |s.cells| && |r.sent| >= |s.sent|
  {
    if IsArp(f) then ArpIn(s, f[14..]) else s
  }

  function FramesIn(s: Station, frames: seq<seq<byte>>): (r: Station)
    requires |s.cells| > 0
    ensures |r.cells| == |s.cells| && |r.sent| >= |s.sent|
    decreases |frames|
  {
    if |frames| == 0 then s else FramesIn(FrameIn(s, frames[0]), frames[1..])
  }

  /** One poll handles everything that has arrived, if the card is up. */
  function PollIn(s: Station, frames: seq<seq<byte>>): (r: Station)
    requires |s.cells| > 0
    ensures |r.cells| == |s.cells|
  {
    if s.up then FramesIn(s, frames) else s
  }

  /** The cache is consulted after each poll; running out of polls is the timeout. */
  function WaitMac(s: Station, target: Ip, polls: seq<seq<seq<byte>>>): (Mac, Station)
    requires |s.cells| > 0
    decreases |polls|
  {
    if |polls| == 0 then (NO_MAC, s)
    else
      var t := PollIn(s, polls[0]);
      match Lookup(t.cells, target)
      case Some(mac) => (mac, t)
      case None => WaitMac(t, target, polls[1..])
  }

  /** Whom a sender asks for: the destination itself, or the gateway. */
  function NextHop(s: Station, dest: Ip): Ip {
    if SameSubnet(dest, s.ip, s.subnet) then dest else s.gateway
  }

  function Resolve(s: Station, dest: Ip, polls: seq<seq<seq<byte>>>): (Mac, Station)
    requires |s.cells| > 0
  {
    match Lookup(s.cells, NextHop(s, dest))
    case Some(mac) => (mac, s)
    case None => WaitMac(SendFrame(s, BROADCAST_MAC, ETH_TYPE_ARP, Request(s, NextHop(s, dest))), NextHop(s, dest), polls)
  }

  function Request(s: Station, target: Ip): seq<byte> {
    ArpPacket(ARP_REQUEST, s.mac, s.ip, NO_MAC, target)
  }

  function Ipv4Out(s: Station, id: half, proto: byte, dest: Ip, payload: seq<byte>, polls: seq<seq<seq<byte>>>): Station
    requires |s.cells| > 0
  {
    if |payload| > 1480 then s
    else
      var (mac, t) := if ToEveryone(dest) then (BROADCAST_MAC, s) else Resolve(s, dest, polls);
      SendFrame(t, mac, ETH_TYPE_IPV4, IpPacket(id, proto, s.ip, dest, payload))
  }

  function UdpOut(s: Station, id: half, dest: Ip, dstPort: half, srcPort: half, data: seq<byte>, polls: seq<seq<seq<byte>>>): Station
    requires |s.cells| > 0
  {
    if |data| > 1464 then s else Ipv4Out(s, id, IP_PROTO_UDP, dest, UdpDatagram(srcPort, dstPort, data), polls)
  }

  // ----- what the cache holds -----

  /** The sender of an ARP frame, as a binding. */
  function Taught(f: seq<byte>): seq<(Ip, Mac)> {
    if IsArp(f) && |f| >= 42 then
      var ip: Ip, mac: Mac := f[28..32], f[22..28];
      [(ip, mac)]
    else []
  }

  function TaughtBy(frames: seq<seq<byte>>): seq<(Ip, Mac)> {
    if |frames| == 0 then [] else TaughtBy(frames[..|frames| - 1]) + Taught(frames[|frames| - 1])
  }

  /** Whatever else the frames are, the cache takes exactly the senders of the ARP packets among them. */
  lemma {:induction false} FramesTeach(s: Station, frames: seq<seq<byte>>)
    requires |s.cells| > 0
    ensures FramesIn(s, frames).cells == StoreAll(s.cells, TaughtBy(frames))
    decreases |frames|
  {
    if |frames| > 0 {
      var n := |frames| - 1;
      FramesTeach(s, frames[..n]);
      assert frames == frames[..n] + [frames[n]];
      FramesConcat(s, frames[..n], [frames[n]]);
      OneFrame(FramesIn(s, frames[..n]), frames[n]);
      if Taught(frames[n]) == [] {
        assert TaughtBy(frames) == TaughtBy(frames[..n]);
      } else {
        assert TaughtBy(frames)[..|TaughtBy(frames)| - 1] == TaughtBy(frames[..n]);
      }
    }
  }

  lemma OneFrame(s: Station, f: seq<byte>)
    requires |s.cells| > 0
    ensures FramesIn(s, [f]).cells == if Taught(f) == [] then s.cells else Store(s.cells, Taught(f)[0].0, Taught(f)[0].0, Taught(f)[0].1)
  {
    var t := FrameIn(s, f);
    var none: seq<seq<byte>> := [];
    assert FramesIn(s, [f]) == t by {
      assert [f][1..] == none && FramesIn(t, none) == t;
    }
    if IsArp(f) && |f| >= 42 {
      SenderTaught(s, f);
    }
  }

  lemma SenderTaught(s: Station, f: seq<byte>)
    requires |s.cells| > 0 && IsArp(f) && |f| >= 42
    ensures ArpIn(s, f[14..]).cells == Store(s.cells, Taught(f)[0].0, Taught(f)[0].0, Taught(f)[0].1)
  {
    assert f[14..][8..14] == f[22..28] && f[14..][14..18] == f[28..32];
  }

  lemma {:induction false} FramesConcat(s: Station, a: seq<seq<byte>>, b: seq<seq<byte>>)
    requires |s.cells| > 0
    ensures FramesIn(s, a + b) == FramesIn(FramesIn(s, a), b)
    decreases |a|
  {
    if |a| == 0 {
      assert a + b == b;
    } else {
      assert (a + b)[0] == a[0] && (a + b)[1..] == a[1..] + b;
      FramesConcat(FrameIn(s, a[0]), a[1..], b);
    }
  }

  /** A poll whose last ARP packet comes from the awaited host ends the wait with that host's address. */
  lemma AnswerEndsWait(s: Station, target: Ip, mac: Mac, frames: seq<seq<byte>>, polls: seq<seq<seq<byte>>>)
    requires |s.cells| > 0 && s.up
    requires |TaughtBy(frames)| > 0 && TaughtBy(frames)[|TaughtBy(frames)| - 1] == (target, mac)
    ensures WaitMac(s, target, [frames] + polls) == (mac, FramesIn(s, frames))
  {
    FramesTeach(s, frames);
    var kvs := TaughtBy(frames);
    FoundUncut(StoreAll(s.cells, kvs[..|kvs| - 1]), target, target, mac);
  }

  // ----- two hosts -----

  /** The packet byte by byte, as RFC 826 lays it out. */
  lemma PacketFields(op: half, senderMac: Mac, senderIp: Ip, targetMac: Mac, targetIp: Ip)
    ensures var p := ArpPacket(op, senderMac, senderIp, targetMac, targetIp);
      && p[..6] == [0, 1, 0x08, 0x00, 6, 4] && NetHalf(p, 6) == 0x100 * p[6] as int + p[7] as int == op
      && p[8..14] == senderMac && p[14..18] == senderIp && p[18..24] == targetMac && p[24..28] == targetIp
  {
    var p := ArpPacket(op, senderMac, senderIp, targetMac, targetIp);
    assert NetHalf(p, 6) == NetHalf(NetBytes(op), 0);
  }

  /** The frame that carries it: the addresses, type 0x0806, the packet. */
  lemma ArpFrameBytes(dst: Mac, src: Mac, p: seq<byte>)
    ensures var f := EthFrame(dst, src, ETH_TYPE_ARP, p);
      f[..6] == dst && f[6..12] == src && f[12] == 0x08 && f[13] == 0x06 && f[14..] == p
  {}

  /**
   * What an ARP packet provokes: nothing if it is shorter than 28 bytes; otherwise its sender is
   * stored, and one reply goes out, to the sender, exactly if it is a request for this host and the
   * card is up.
   */
  lemma AnsweredExactly(s: Station, p: seq<byte>, senderMac: Mac, senderIp: Ip)
    requires |s.cells| > 0
    requires |p| >= 28 ==> senderMac == p[8..14] && senderIp == p[14..18]
    ensures var r := ArpIn(s, p);
      if |p| < 28 then r == s else
      && r == s.(cells := r.cells, sent := r.sent) && Lookup(r.cells, senderIp) == Some(senderMac)
      && r.sent == s.sent + if s.up && p[6] == 0 && p[7] == 1 && p[24..28] == s.ip
        then [EthFrame(senderMac, s.mac, 0x0806, ArpPacket(2, s.mac, s.ip, senderMac, senderIp))] else []
  {
    if |p| >= 28 {
      FoundUncut(s.cells, senderIp, senderIp, senderMac);
      assert NetHalf(p, 6) == 1 <==> p[6] == 0 && p[7] == 1;
    }
  }

  function Reply(b: Station, a: Station): seq<byte> {
    EthFrame(a.mac, b.mac, ETH_TYPE_ARP, ArpPacket(ARP_REPLY, b.mac, b.ip, a.mac, a.ip))
  }

  /** A host that is asked for answers with its address, and remembers who asked. */
  lemma RequestAnswered(a: Station, b: Station)
    requires |b.cells| > 0 && b.up
    ensures var r := FramesIn(b, [EthFrame(BROADCAST_MAC, a.mac, ETH_TYPE_ARP, Request(a, b.ip))]);
      r.sent == b.sent + [Reply(b, a)] && Lookup(r.cells, a.ip) == Some(a.mac)
  {
    var p := Request(a, b.ip);
    var f: seq<byte> := EthFrame(BROADCAST_MAC, a.mac, ETH_TYPE_ARP, p);
    FrameIsArp(BROADCAST_MAC, a.mac, p);
    PacketFields(ARP_REQUEST, a.mac, a.ip, NO_MAC, b.ip);
    var none: seq<seq<byte>> := [];
    assert [f][1..] == none;
    FoundUncut(b.cells, a.ip, a.ip, a.mac);
  }

  lemma FrameIsArp(dst: Mac, src: Mac, p: seq<byte>)
    ensures var f := EthFrame(dst, src, ETH_TYPE_ARP, p); IsArp(f) && f[14..] == p
  {
    var f := EthFrame(dst, src, ETH_TYPE_ARP, p);
    assert f[12..14] == NetBytes(ETH_TYPE_ARP) && NetHalf(f, 12) == NetHalf(NetBytes(ETH_TYPE_ARP), 0);
  }

  /** `b` is whom `a` has to ask for `dest`: a host on its subnet itself, the gateway for any other. */
  ghost predicate Reaches(a: Station, b: Station, dest: Ip) {
    b.ip == if SameSubnet(dest, a.ip, a.subnet) then dest else a.gateway
  }

  /**
   * Asking works, for a neighbour as for the gateway: a host that does not know the next hop
   * broadcasts one request, the hop's answer to exactly that frame ends the wait, and the address
   * found is the hop's.
   */
  lemma AskingFinds(a: Station, b: Station, dest: Ip, polls: seq<seq<seq<byte>>>)
    requires |a.cells| > 0 && |b.cells| > 0 && a.up && b.up
    requires Reaches(a, b, dest) && Lookup(a.cells, b.ip) == None
    ensures var request := EthFrame([255, 255, 255, 255, 255, 255], a.mac, 0x0806, ArpPacket(1, a.mac, a.ip, [0, 0, 0, 0, 0, 0], b.ip));
      var answers := FramesIn(b, [request]).sent[|b.sent|..];
      var (mac, t) := Resolve(a, dest, [answers] + polls);
      && mac == b.mac && t.sent == a.sent + [request] && Lookup(t.cells, b.ip) == Some(b.mac)
  {
    var request := EthFrame(BROADCAST_MAC, a.mac, ETH_TYPE_ARP, Request(a, b.ip));
    RequestAnswered(a, b);
    var f := Reply(b, a);
    var p := ArpPacket(ARP_REPLY, b.mac, b.ip, a.mac, a.ip);
    assert FramesIn(b, [request]).sent[|b.sent|..] == [f];
    var asked := SendFrame(a, BROADCAST_MAC, ETH_TYPE_ARP, Request(a, b.ip));
    FrameIsArp(a.mac, b.mac, p);
    PacketFields(ARP_REPLY, b.mac, b.ip, a.mac, a.ip);
    var none: seq<seq<byte>> := [];
    assert [f][1..] == none && ([[f]] + polls)[0] == [f];
    FoundUncut(asked.cells, b.ip, b.ip, b.mac);
    var t := ArpIn(asked, p);
    assert FramesIn(asked, [f]) == t;
  }

  /**
   * So a first datagram leaves as two frames: the request, and the datagram to the address learned.
   * To a host off the subnet the gateway is asked for, and gets the datagram; the destination address
   * in it stays the host's.
   */
  lemma FirstContact(a: Station, b: Station, dest: Ip, id: half, dstPort: half, srcPort: half, data: seq<byte>, polls: seq<seq<seq<byte>>>)
    requires |a.cells| > 0 && |b.cells| > 0 && a.up && b.up && |data| <= 1464
    requires Reaches(a, b, dest) && Lookup(a.cells, b.ip) == None && dest[0] < 224
    ensures var request := EthFrame([255, 255, 255, 255, 255, 255], a.mac, 0x0806, ArpPacket(1, a.mac, a.ip, [0, 0, 0, 0, 0, 0], b.ip));
      var answers := FramesIn(b, [request]).sent[|b.sent|..];
      UdpOut(a, id, dest, dstPort, srcPort, data, [answers] + polls).sent ==
        a.sent + [request, UdpFrame(id, a.ip, a.mac, dest, b.mac, dstPort, srcPort, data)]
  {
    AskingFinds(a, b, dest, polls);
    var request := EthFrame(BROADCAST_MAC, a.mac, ETH_TYPE_ARP, Request(a, b.ip));
    var answers := FramesIn(b, [request]).sent[|b.sent|..];
    var (mac, t) := Resolve(a, dest, [answers] + polls);
    SameHost(a, dest, [answers] + polls);
    var frame := UdpFrame(id, a.ip, a.mac, dest, b.mac, dstPort, srcPort, data);
    assert a.sent + [request] + [frame] == a.sent + [request, frame];
  }

  /** Once the next hop is known, a datagram is one frame to it; one to everyone is a single broadcast
      frame whatever is known; one of more than 1464 bytes is no frame. */
  lemma KnownHop(a: Station, b: Station, dest: Ip, id: half, dstPort: half, srcPort: half, data: seq<byte>, polls: seq<seq<seq<byte>>>)
    requires |a.cells| > 0 && a.up
    requires dest[0] < 224 ==> Reaches(a, b, dest) && Lookup(a.cells, b.ip) == Some(b.mac)
    ensures var r := UdpOut(a, id, dest, dstPort, srcPort, data, polls);
      && r == a.(sent := r.sent)
      && r.sent == a.sent + if |data| > 1464 then [] else
        [UdpFrame(id, a.ip, a.mac, dest, if dest[0] < 224 then b.mac else [255, 255, 255, 255, 255, 255], dstPort, srcPort, data)]
  {}

  /** With the card down nothing is sent, received or learned. */
  lemma CardDown(s: Station, dest: Ip, id: half, dstPort: half, srcPort: half, data: seq<byte>, polls: seq<seq<seq<byte>>>)
    requires |s.cells| > 0 && !s.up
    ensures UdpOut(s, id, dest, dstPort, srcPort, data, polls) == s
  {
    var none: seq<seq<byte>> := [];
    assert s.sent + none == s.sent;
    if Lookup(s.cells, NextHop(s, dest)) == None {
      WaitDown(s, NextHop(s, dest), polls);
    }
  }

  lemma {:induction false} WaitDown(s: Station, target: Ip, polls: seq<seq<seq<byte>>>)
    requires |s.cells| > 0 && !s.up && Lookup(s.cells, target) == None
    ensures WaitMac(s, target, polls).1 == s
    decreases |polls|
  {
    if |polls| > 0 {
      WaitDown(s, target, polls[1..]);
    }
  }

  // ----- nobody answers -----

  lemma OtherStore<K, V>(t: seq<Cell<K, V>>, key: K, v: V, other: K)
    requires |t| > 0 && key != other && Lookup(t, other) == None
    ensures Lookup(Store(t, key, key, v), other) == None
  {}

  lemma {:induction false} OtherStores<K, V>(t: seq<Cell<K, V>>, kvs: seq<(K, V)>, other: K)
    requires |t| > 0 && Lookup(t, other) == None && forall i :: 0 <= i < |kvs| ==> kvs[i].0 != other
    ensures Lookup(StoreAll(t, kvs), other) == None
    decreases |kvs|
  {
    if |kvs| > 0 {
      var (k, v) := kvs[|kvs| - 1];
      OtherStores(t, kvs[..|kvs| - 1], other);
      OtherStore(StoreAll(t, kvs[..|kvs| - 1]), k, v, other);
    }
  }

  /** No ARP packet among the frames comes from the host. */
  ghost predicate Silent(target: Ip, frames: seq<seq<byte>>) {
    forall i :: 0 <= i < |TaughtBy(frames)| ==> TaughtBy(frames)[i].0 != target
  }

  /** The wait for a host that stays silent ends with the zero address. */
  lemma {:induction false} SilenceTimesOut(s: Station, target: Ip, polls: seq<seq<seq<byte>>>)
    requires |s.cells| > 0 && Lookup(s.cells, target) == None
    requires forall i :: 0 <= i < |polls| ==> Silent(target, polls[i])
    ensures var (mac, t) := WaitMac(s, target, polls);
      mac == [0, 0, 0, 0, 0, 0] && Lookup(t.cells, target) == None
    decreases |polls|
  {
    if |polls| > 0 {
      FramesTeach(s, polls[0]);
      OtherStores(s.cells, TaughtBy(polls[0]), target);
      SilenceTimesOut(PollIn(s, polls[0]), target, polls[1..]);
    }
  }

  /** The datagram is then sent all the same, last and to the zero address. */
  lemma SentIntoTheVoid(a: Station, b: Station, dest: Ip, id: half, dstPort: half, srcPort: half, data: seq<byte>, polls: seq<seq<seq<byte>>>)
    requires |a.cells| > 0 && a.up && |data| <= 1464 && dest[0] < 224
    requires Reaches(a, b, dest) && Lookup(a.cells, b.ip) == None
    requires forall i :: 0 <= i < |polls| ==> Silent(b.ip, polls[i])
    ensures var r := UdpOut(a, id, dest, dstPort, srcPort, data, polls);
      |r.sent| > 0 && r.sent[|r.sent| - 1] == UdpFrame(id, a.ip, a.mac, dest, [0, 0, 0, 0, 0, 0], dstPort, srcPort, data)
  {
    var asked := SendFrame(a, BROADCAST_MAC, ETH_TYPE_ARP, Request(a, b.ip));
    SilenceTimesOut(asked, b.ip, polls);
    SameHost(a, dest, polls);
  }

  /** Waiting changes neither the host's addresses nor its card. */
  lemma SameHost(s: Station, dest: Ip, polls: seq<seq<seq<byte>>>)
    requires |s.cells| > 0
    ensures var t := Resolve(s, dest, polls).1; t.ip == s.ip && t.mac == s.mac && t.up == s.up
  {
    var target := NextHop(s, dest);
    if Lookup(s.cells, target) == None {
      WaitingHost(SendFrame(s, BROADCAST_MAC, ETH_TYPE_ARP, Request(s, target)), target, polls);
    }
  }

  lemma {:induction false} WaitingHost(s: Station, target: Ip, polls: seq<seq<seq<byte>>>)
    requires |s.cells| > 0
    ensures var t := WaitMac(s, target, polls).1; t.ip == s.ip && t.mac == s.mac && t.up == s.up
    decreases |polls|
  {
    if |polls| > 0 {
      PolledHost(s, polls[0]);
      WaitingHost(PollIn(s, polls[0]), target, polls[1..]);
    }
  }

  lemma {:induction false} PolledHost(s: Station, frames: seq<seq<byte>>)
    requires |s.cells| > 0
    ensures var t := FramesIn(s, frames); t.ip == s.ip && t.mac == s.mac && t.up == s.up
    decreases |frames|
  {
    if |frames| > 0 {
      PolledHost(FrameIn(s, frames[0]), frames[1..]);
    }
  }
}
