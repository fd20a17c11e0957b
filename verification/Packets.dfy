/** UDP over IPv4 over Ethernet: what is sent, and what a receiver makes of the bytes. */
module Packets {
  import opened Bytes
  import opened Checksum

  type Ip = a: seq<byte> | |a| == 4 witness [0, 0, 0, 0]
  type Mac = a: seq<byte> | |a| == 6 witness [0, 0, 0, 0, 0, 0]
  type half = h: int | 0 <= h < 0x1_0000

  const BROADCAST_IP: Ip := [255, 255, 255, 255]
  const BROADCAST_MAC: Mac := [255, 255, 255, 255, 255, 255]
  const ETH_TYPE_IPV4: half := 0x0800
  const ETH_TYPE_ARP: half := 0x0806
  const IP_PROTO_UDP: byte := 17
  const TX_BUF_SIZE := 1536
  const TX_BUF_COUNT := 4
  const MAX_UDP_SOCKETS := 8
  /** From the start of any received frame the receive buffer goes on for at least this long. */
  const RX_ROOM := 1513

  // ----- the formats -----

  function UdpDatagram(srcPort: half, dstPort: half, data: seq<byte>): (d: seq<byte>)
    requires |data| + 8 < 0x1_0000
    ensures |d| == 8 + |data|
  {
    NetBytes(srcPort) + NetBytes(dstPort) + NetBytes(8 + |data|) + [0, 0] + data
  }

  /** The header before its checksum is stored. */
  function BareHeader(len: nat, id: half, proto: byte, src: Ip, dst: Ip): (h: seq<byte>)
    requires 20 + len < 0x1_0000
    ensures |h| == 20 && NetHalf(h, 10) == 0
  {
    [0x45, 0] + NetBytes(20 + len) + NetBytes(id) + NetBytes(0x4000) + [64, proto, 0, 0] + src + dst
  }

  function IpHeader(len: nat, id: half, proto: byte, src: Ip, dst: Ip): (h: seq<byte>)
    requires 20 + len < 0x1_0000
    ensures |h| == 20
  {
    var bare := BareHeader(len, id, proto, src, dst);
    PutNetHalf(bare, 10, ChecksumOf(bare))
  }

  function IpPacket(id: half, proto: byte, src: Ip, dst: Ip, payload: seq<byte>): (p: seq<byte>)
    requires 20 + |payload| < 0x1_0000
    ensures |p| == 20 + |payload|
  {
    IpHeader(|payload|, id, proto, src, dst) + payload
  }

  function EthFrame(dst: Mac, src: Mac, etype: half, payload: seq<byte>): (f: seq<byte>)
    ensures |f| == 14 + |payload|
  {
    dst + src + NetBytes(etype) + payload
  }

  /** Broadcast and multicast bypass address resolution. */
  predicate ToEveryone(dst: Ip) {
    dst == BROADCAST_IP || dst[0] >= 224
  }

  // ----- receiving -----

  /** A protocol handler call: the sender, and the payload as an offset and a length. */
  datatype Dispatch = Drop | Arp | Upper(proto: byte, src: Ip, base: nat, len: half)

  datatype Call = Call(callback: nat, src: Ip, srcPort: half, base: nat, len: half)

  datatype Socket = Unused | Used(port: half, callback: nat)

  function Ipv4Rx(me: Ip, mem: seq<byte>, base: nat, len: half): Dispatch
    requires base + 20 <= |mem|
  {
    if len < 20 then Drop
    else
      var ihl := mem[base] % 16 * 4;
      var dst := mem[base + 16..base + 20];
      if dst != me && dst != BROADCAST_IP then Drop
      else Upper(mem[base + 9], mem[base + 12..base + 16], base + ihl, (NetHalf(mem, base + 2) - ihl) % 0x1_0000)
  }

  function NetstackRx(me: Ip, mem: seq<byte>, len: half): Dispatch
    requires RX_ROOM <= |mem|
  {
    if len < 14 then Drop
    else if NetHalf(mem, 12) == ETH_TYPE_ARP then Arp
    else if NetHalf(mem, 12) == ETH_TYPE_IPV4 then Ipv4Rx(me, mem, 14, len - 14)
    else Drop
  }

  /** The callbacks bound to a port, in slot order. */
  function Callbacks(t: seq<Socket>, port: half): seq<nat> {
    if |t| == 0 then []
    else (if t[0].Used? && t[0].port == port then [t[0].callback] else []) + Callbacks(t[1..], port)
  }

  function CallEach(cs: seq<nat>, src: Ip, srcPort: half, base: nat, len: half): (r: seq<Call>)
    ensures |r| == |cs| && forall i :: 0 <= i < |cs| ==> r[i] == Call(cs[i], src, srcPort, base, len)
  {
    if |cs| == 0 then [] else [Call(cs[0], src, srcPort, base, len)] + CallEach(cs[1..], src, srcPort, base, len)
  }

  lemma {:induction false} CallbacksAppend(a: seq<Socket>, b: seq<Socket>, port: half)
    ensures Callbacks(a + b, port) == Callbacks(a, port) + Callbacks(b, port)
    decreases |a|
  {
    if |a| == 0 {
      assert a + b == b;
    } else {
      assert (a + b)[1..] == a[1..] + b;
      CallbacksAppend(a[1..], b, port);
    }
  }

  lemma {:induction false} CallEachAppend(a: seq<nat>, b: seq<nat>, src: Ip, srcPort: half, base: nat, len: half)
    ensures CallEach(a + b, src, srcPort, base, len) ==
      CallEach(a, src, srcPort, base, len) + CallEach(b, src, srcPort, base, len)
    decreases |a|
  {
    if |a| == 0 {
      assert a + b == b;
    } else {
      assert (a + b)[1..] == a[1..] + b;
      CallEachAppend(a[1..], b, src, srcPort, base, len);
    }
  }

  /** The callbacks of a port after one slot changed. */
  lemma CallbacksSet(t: seq<Socket>, k: nat, s: Socket, port: half)
    requires k < |t|
    ensures Callbacks(t, port) == Callbacks(t[..k], port) + Callbacks([t[k]], port) + Callbacks(t[k + 1..], port)
    ensures Callbacks(t[k := s], port) == Callbacks(t[..k], port) + Callbacks([s], port) + Callbacks(t[k + 1..], port)
  {
    assert t == t[..k] + [t[k]] + t[k + 1..];
    assert t[k := s] == t[..k] + [s] + t[k + 1..];
    CallbacksAppend(t[..k] + [t[k]], t[k + 1..], port);
    CallbacksAppend(t[..k], [t[k]], port);
    CallbacksAppend(t[..k] + [s], t[k + 1..], port);
    CallbacksAppend(t[..k], [s], port);
  }

  /** The first free slot, and no other, gets a new content. */
  ghost predicate TakesFirst(t: seq<Socket>, k: int, u: seq<Socket>, s: Socket) {
    0 <= k < |t| && t[k].Unused? && u == t[k := s] && forall j :: 0 <= j < k ==> t[j].Used?
  }

  /** A free slot bound to a port adds one callback to that port and none to others. */
  lemma BindsOne(t: seq<Socket>, k: nat, port: half, callback: nat)
    requires k < |t| && t[k].Unused?
    ensures var u := t[k := Used(port, callback)];
      && multiset(Callbacks(u, port)) == multiset(Callbacks(t, port)) + multiset{callback}
      && forall q :: q != port ==> Callbacks(u, q) == Callbacks(t, q)
  {
    var s := Used(port, callback);
    CallbacksSet(t, k, s, port);
    assert Callbacks([s], port) == [callback];
    forall q | q != port ensures Callbacks(t[k := s], q) == Callbacks(t, q) {
      CallbacksSet(t, k, s, q);
      assert Callbacks([s], q) == [] == Callbacks([t[k]], q);
    }
  }

  // ----- the bytes of a frame -----

  /** The header byte by byte: version 4 without options, no service class, the total length, the
      identification, "do not fragment", 64 hops, the protocol and the addresses, as in section 3.1 of
      RFC 791. */
  lemma HeaderBytes(len: nat, id: half, proto: byte, src: Ip, dst: Ip)
    requires 20 + len < 0x1_0000
    ensures var h := IpHeader(len, id, proto, src, dst);
      && h[0] == 0x45 && h[1] == 0 && 0x100 * h[2] as int + h[3] as int == 20 + len
      && 0x100 * h[4] as int + h[5] as int == id && h[6] == 0x40 && h[7] == 0
      && h[8] == 64 && h[9] == proto && h[12..16] == src && h[16..20] == dst
  {
    var h, bare := IpHeader(len, id, proto, src, dst), BareHeader(len, id, proto, src, dst);
    assert forall k :: 0 <= k < 10 || 12 <= k < 20 ==> h[k] == bare[k];
    assert bare[12..16] == src && bare[16..20] == dst;
  }

  /** The frame that leaves the card, byte by byte; only the checksum at 24 is said elsewhere. */
  lemma FrameBytes(id: half, src: Ip, srcMac: Mac, dst: Ip, dstMac: Mac, dstPort: half, srcPort: half, data: seq<byte>)
    requires |data| <= 1464
    ensures var f := UdpFrame(id, src, srcMac, dst, dstMac, dstPort, srcPort, data);
      && |f| == 42 + |data| && f[..6] == dstMac && f[6..12] == srcMac && f[12] == 0x08 && f[13] == 0x00
      && f[14] == 0x45 && f[15] == 0 && 0x100 * f[16] as int + f[17] as int == 28 + |data|
      && 0x100 * f[18] as int + f[19] as int == id && f[20] == 0x40 && f[21] == 0 && f[22] == 64 && f[23] == 17
      && f[26..30] == src && f[30..34] == dst
      && 0x100 * f[34] as int + f[35] as int == srcPort && 0x100 * f[36] as int + f[37] as int == dstPort
      && 0x100 * f[38] as int + f[39] as int == 8 + |data| && f[40] == 0 && f[41] == 0 && f[42..] == data
  {
    var u, h := UdpDatagram(srcPort, dstPort, data), IpHeader(8 + |data|, id, 17, src, dst);
    var f := UdpFrame(id, src, srcMac, dst, dstMac, dstPort, srcPort, data);
    assert f[..6] == dstMac && f[6..12] == srcMac && f[12..14] == NetBytes(ETH_TYPE_IPV4) && f[14..34] == h && f[34..] == u;
    assert f[12] == f[12..14][0] && f[13] == f[12..14][1];
    assert forall k :: 0 <= k < 20 ==> f[14 + k] == h[k] by { Window(f, 14, h, 12, 16); }
    assert f[26..30] == h[12..16] && f[30..34] == h[16..20] by {
      Window(f, 14, h, 12, 16);
      Window(f, 14, h, 16, 20);
    }
    HeaderBytes(8 + |data|, id, 17, src, dst);
    assert forall k :: 0 <= k < 8 ==> f[34 + k] == u[k];
    DatagramBytes(srcPort, dstPort, data);
    assert f[42..] == f[34..][8..];
  }

  lemma DatagramBytes(srcPort: half, dstPort: half, data: seq<byte>)
    requires |data| + 8 < 0x1_0000
    ensures var u := UdpDatagram(srcPort, dstPort, data);
      && 0x100 * u[0] as int + u[1] as int == srcPort && 0x100 * u[2] as int + u[3] as int == dstPort
      && 0x100 * u[4] as int + u[5] as int == 8 + |data| && u[6] == 0 && u[7] == 0 && u[8..] == data
  {}

  // ----- what a receiver reads -----

  /**
   * Every received IPv4 frame, whatever it claims: one for another host is dropped; otherwise the
   * payload starts behind the header and its options, and its length is the announced one less the
   * header, modulo 65536.
   */
  lemma HeaderRead(me: Ip, mem: seq<byte>, len: half, words: nat, total: nat, src: Ip, dst: Ip)
    requires RX_ROOM <= |mem| && len >= 34 && mem[12] == 0x08 && mem[13] == 0x00
    requires words == mem[14] % 16 && total == 0x100 * mem[16] as int + mem[17] as int
    requires src == mem[26..30] && dst == mem[30..34]
    ensures NetstackRx(me, mem, len) ==
      if dst != me && dst != [255, 255, 255, 255] then Drop
      else Upper(mem[23], src, 14 + 4 * words, if 4 * words <= total then total - 4 * words else total + 0x1_0000 - 4 * words)
  {
    assert mem[14 + 16..14 + 20] == dst && mem[14 + 12..14 + 16] == src;
  }

  /** Frames that are too short, or neither ARP nor IPv4, go nowhere. */
  lemma OthersDropped(me: Ip, t: seq<Socket>, mem: seq<byte>, len: half)
    requires RX_ROOM <= |mem|
    requires len < 14 || !(mem[12] == 0x08 && mem[13] in {0x00, 0x06}) || (mem[13] == 0x00 && len < 34)
    ensures NetstackRx(me, mem, len) == Drop && FrameCalls(me, t, mem, len) == []
  {}

  /** The calls of any IPv4 frame for this host: none unless it is UDP with a whole header, else one per
      callback of the destination port, with the ports and the announced length of that header. */
  lemma DatagramRead(me: Ip, t: seq<Socket>, mem: seq<byte>, len: half, at: nat, total: nat, announced: nat, src: Ip, dst: Ip, cs: seq<nat>)
    requires RX_ROOM <= |mem| && len >= 34 && mem[12] == 0x08 && mem[13] == 0x00
    requires at == 14 + 4 * (mem[14] % 16) && total == 0x100 * mem[16] as int + mem[17] as int >= at - 14
    requires src == mem[26..30] && dst == mem[30..34] && (dst == me || dst == [255, 255, 255, 255])
    requires announced == 0x100 * mem[at + 4] as int + mem[at + 5] as int
    requires cs == Callbacks(t, 0x100 * mem[at + 2] as int + mem[at + 3] as int)
    ensures var calls := FrameCalls(me, t, mem, len);
      if mem[23] != 17 || total - (at - 14) < 8 then calls == [] else
      && |calls| == |cs|
      && forall i :: 0 <= i < |cs| ==> calls[i] == Call(cs[i], src, 0x100 * mem[at] as int + mem[at + 1] as int, at + 8,
        if announced >= 8 then announced - 8 else announced + 0xFFF8)
  {
    assert NetstackRx(me, mem, len) == Upper(mem[23], src, at, total - (at - 14)) by {
      HeaderRead(me, mem, len, mem[14] % 16, total, src, dst);
    }
    PassedUp(me, t, mem, len);
    CallsRead(t, mem, at, total - (at - 14), announced, src, cs);
  }

  lemma PassedUp(me: Ip, t: seq<Socket>, mem: seq<byte>, len: half)
    requires RX_ROOM <= |mem| && NetstackRx(me, mem, len).Upper?
    ensures var d := NetstackRx(me, mem, len);
      d.base + 8 <= |mem| && FrameCalls(me, t, mem, len) == if d.proto == 17 then UdpCalls(t, d.src, mem, d.base, d.len) else []
  {}

  lemma CallsRead(t: seq<Socket>, mem: seq<byte>, at: nat, len: half, announced: nat, src: Ip, cs: seq<nat>)
    requires at + 8 <= |mem| && announced == 0x100 * mem[at + 4] as int + mem[at + 5] as int
    requires cs == Callbacks(t, 0x100 * mem[at + 2] as int + mem[at + 3] as int)
    ensures var calls := UdpCalls(t, src, mem, at, len);
      if len < 8 then calls == [] else
      && |calls| == |cs|
      && forall i :: 0 <= i < |cs| ==> calls[i] == Call(cs[i], src, 0x100 * mem[at] as int + mem[at + 1] as int, at + 8,
        if announced >= 8 then announced - 8 else announced + 0xFFF8)
  {
    if len >= 8 {
      assert cs == Callbacks(t, NetHalf(mem, at + 2)) && announced == NetHalf(mem, at + 4);
      assert (announced - 8) % 0x1_0000 == if announced >= 8 then announced - 8 else announced + 0xFFF8;
    }
  }

  // ----- the round trip -----

  /** The checksum in a sent header verifies. */
  lemma HeaderVerifies(len: nat, id: half, proto: byte, src: Ip, dst: Ip)
    requires 20 + len < 0x1_0000
    ensures ChecksumOf(IpHeader(len, id, proto, src, dst)) == 0
  {
    var bare := BareHeader(len, id, proto, src, dst);
    FieldVerifies(bare, 10, ChecksumOf(bare));
  }

  /** A sent packet, with whatever follows it, is passed up with its sender, protocol and payload. */
  lemma PacketArrives(me: Ip, id: half, proto: byte, src: Ip, dst: Ip, payload: seq<byte>, mem: seq<byte>, len: half)
    requires 20 + |payload| < 0x1_0000
    requires 14 + 20 + |payload| <= |mem| && mem[14..34 + |payload|] == IpPacket(id, proto, src, dst, payload)
    requires len >= 20 && (dst == me || dst == BROADCAST_IP)
    ensures Ipv4Rx(me, mem, 14, len) == Upper(proto, src, 34, |payload|)
    ensures mem[34..34 + |payload|] == payload
  {
    var p := IpPacket(id, proto, src, dst, payload);
    var bare := BareHeader(|payload|, id, proto, src, dst);
    assert bare[12..16] == src && bare[16..20] == dst;
    assert forall k :: 0 <= k < 10 || 12 <= k < 20 ==> p[k] == bare[k];
    Window(mem, 14, p, 12, 16);
    Window(mem, 14, p, 16, 20);
    assert p[12..16] == bare[12..16] && p[16..20] == bare[16..20];
    assert NetHalf(mem, 16) == NetHalf(p, 2) == NetHalf(bare, 2) == NetHalf(NetBytes(20 + |payload|), 0);
    assert mem[14] == 0x45 && mem[23] == proto;
    Window(mem, 14, p, 20, |p|);
  }

  /** A part of something stored at `o` is found at its place. */
  lemma Window(mem: seq<byte>, o: nat, p: seq<byte>, a: nat, b: nat)
    requires o + |p| <= |mem| && mem[o..o + |p|] == p && a <= b <= |p|
    ensures mem[o + a..o + b] == p[a..b]
    ensures forall k :: 0 <= k < |p| ==> mem[o + k] == p[k]
  {
    forall k | 0 <= k < |p| ensures mem[o + k] == p[k] {
      assert mem[o..o + |p|][k] == mem[o + k];
    }
  }

  /** The frame `udp_send` gives the card for this payload. */
  function UdpFrame(id: half, src: Ip, srcMac: Mac, dst: Ip, dstMac: Mac, dstPort: half, srcPort: half, data: seq<byte>): seq<byte>
    requires |data| <= 1464
  {
    EthFrame(dstMac, srcMac, ETH_TYPE_IPV4, IpPacket(id, IP_PROTO_UDP, src, dst, UdpDatagram(srcPort, dstPort, data)))
  }

  function UdpCalls(t: seq<Socket>, src: Ip, mem: seq<byte>, base: nat, len: half): seq<Call>
    requires base + 8 <= |mem|
  {
    if len < 8 then []
    else CallEach(Callbacks(t, NetHalf(mem, base + 2)), src, NetHalf(mem, base), base + 8, (NetHalf(mem, base + 4) - 8) % 0x1_0000)
  }

  /**
   * Every payload of at most 1464 bytes survives: a host that the frame is addressed to calls each
   * callback of the port with the sender's address, port and exactly the payload, whatever padding
   * the link added and whatever the receive buffer holds behind it.
   */
  lemma UdpRoundTrip(me: Ip, t: seq<Socket>, id: half, src: Ip, srcMac: Mac, dst: Ip, dstMac: Mac,
                     dstPort: half, srcPort: half, data: seq<byte>, mem: seq<byte>, len: half)
    requires |data| <= 1464 && (dst == me || dst == BROADCAST_IP)
    requires 42 + |data| <= len && RX_ROOM <= |mem| && UdpFrame(id, src, srcMac, dst, dstMac, dstPort, srcPort, data) <= mem
    ensures var d := NetstackRx(me, mem, len);
      && d == Upper(IP_PROTO_UDP, src, 34, 8 + |data|)
      && UdpCalls(t, d.src, mem, d.base, d.len) == CallEach(Callbacks(t, dstPort), src, srcPort, 42, |data|)
    ensures mem[42..42 + |data|] == data
  {
    var u := UdpDatagram(srcPort, dstPort, data);
    var p := IpPacket(id, IP_PROTO_UDP, src, dst, u);
    var f := UdpFrame(id, src, srcMac, dst, dstMac, dstPort, srcPort, data);
    assert mem[0..0 + |f|] == f && f[14..] == p && f[12..14] == NetBytes(ETH_TYPE_IPV4);
    Window(mem, 0, f, 14, |f|);
    assert NetHalf(mem, 12) == NetHalf(f, 12) == NetHalf(f[12..14], 0);
    PacketArrives(me, id, IP_PROTO_UDP, src, dst, u, mem, len - 14);
    DatagramArrives(t, src, srcPort, dstPort, data, mem);
  }

  lemma DatagramArrives(t: seq<Socket>, src: Ip, srcPort: half, dstPort: half, data: seq<byte>, mem: seq<byte>)
    requires |data| <= 1464 && 42 + |data| <= |mem| && mem[34..42 + |data|] == UdpDatagram(srcPort, dstPort, data)
    ensures UdpCalls(t, src, mem, 34, 8 + |data|) == CallEach(Callbacks(t, dstPort), src, srcPort, 42, |data|)
    ensures mem[42..42 + |data|] == data
  {
    var u := UdpDatagram(srcPort, dstPort, data);
    Window(mem, 34, u, 8, |u|);
    assert NetHalf(mem, 34) == NetHalf(u, 0) == NetHalf(NetBytes(srcPort), 0);
    assert NetHalf(mem, 36) == NetHalf(u, 2) == NetHalf(NetBytes(dstPort), 0);
    assert NetHalf(mem, 38) == NetHalf(u, 4) == NetHalf(NetBytes(8 + |data|), 0);
  }

  // ----- the stack -----

  /** Stores `s` at offset `o` of a buffer, byte by byte. */
  method Put(buf: array<byte>, o: nat, s: seq<byte>)
    requires o + |s| <= buf.Length
    modifies buf
    ensures buf[o..o + |s|] == s
    ensures buf[..o] == old(buf[..o]) && buf[o + |s|..] == old(buf[o + |s|..])
  {
    var i := 0;
    while i < |s|
      invariant i <= |s|
      invariant buf[o..o + i] == s[..i]
      invariant buf[..o] == old(buf[..o])
      invariant forall k :: o + i <= k < buf.Length ==> buf[k] == old(buf[k])
    {
      buf[o + i] := s[i];
      i := i + 1;
    }
  }

  /** Stores a 16-bit field, high byte first, in a message that fills the first `total` bytes of a buffer. */
  method PutField(buf: array<byte>, total: nat, o: nat, h: half)
    requires o + 2 <= total <= buf.Length
    modifies buf
    ensures buf[..total] == PutNetHalf(old(buf[..total]), o, h)
    ensures buf[total..] == old(buf[total..])
  {
    buf[o] := h / 0x100;
    buf[o + 1] := h % 0x100;
  }

  /** The calls that the datagrams of one frame make on a host. */
  function FrameCalls(me: Ip, t: seq<Socket>, mem: seq<byte>, len: half): seq<Call>
    requires RX_ROOM <= |mem|
  {
    match NetstackRx(me, mem, len)
    case Upper(proto, src, base, n) => if proto == IP_PROTO_UDP then UdpCalls(t, src, mem, base, n) else []
    case _ => []
  }

  lemma {:induction false} NoCallbacks(t: seq<Socket>, port: half)
    requires forall k :: 0 <= k < |t| ==> t[k].Unused?
    ensures Callbacks(t, port) == []
  {
    if |t| > 0 {
      NoCallbacks(t[1..], port);
    }
  }

  function Cleared(s: Socket, port: half): Socket {
    if s.Used? && s.port == port then Unused else s
  }

  lemma {:induction false} Unbound(t: seq<Socket>, u: seq<Socket>, port: half)
    requires |u| == |t| && forall k :: 0 <= k < |t| ==> u[k] == Cleared(t[k], port)
    ensures forall q :: Callbacks(u, q) == if q == port then [] else Callbacks(t, q)
  {
    if |t| > 0 {
      Unbound(t[1..], u[1..], port);
    }
  }
}
