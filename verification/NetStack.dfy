/** The network stack: sending with address resolution, and UDP reception. */
module NetStacks {
  import opened Arp
  import opened Bytes
  import opened Cache
  import opened Checksum
  import opened Packets
  import opened SlotTable

  class NetStack {
    var myIp: Ip
    var myMac: Mac
    var nicOk: bool
    var gateway: Ip
    var subnet: Ip
    var ipId: half
    var txCur: nat
    const txBuf: array<byte>
    const arp: Cache<Ip, Mac>
    const sockets: array<Socket>
    /** The frames handed to the card, oldest first. */
    var sent: seq<seq<byte>>

    ghost predicate Valid()
      reads this
    {
      && txBuf.Length == TX_BUF_COUNT * TX_BUF_SIZE && txCur < TX_BUF_COUNT
      && sockets.Length == MAX_UDP_SOCKETS && arp.cells.Length == ARP_CACHE_SIZE
    }

    /** The stack as the link layer sees it. */
    ghost function View(): Station
      reads this, arp.cells
    {
      Station(myIp, myMac, nicOk, gateway, subnet, arp.cells[..], sent)
    }

    constructor (ip: Ip, mac: Mac)
      ensures Valid() && fresh(txBuf) && fresh(sockets) && fresh(arp) && fresh(arp.cells)
      ensures myIp == ip && myMac == mac && nicOk && ipId == 0 && sent == []
      ensures gateway == [10, 0, 2, 2] && subnet == [255, 255, 255, 0] && sockets.Length == 8 && arp.cells.Length == 16
      ensures CacheInv(arp.cells[..]) && ToMap(arp.cells[..]) == map[]
      ensures forall port :: Callbacks(sockets[..], port) == []
    {
      myIp, myMac, nicOk, ipId, txCur, sent := ip, mac, true, 0, 0, [];
      gateway, subnet := [10, 0, 2, 2], [255, 255, 255, 0];
      txBuf := new byte[TX_BUF_COUNT * TX_BUF_SIZE](_ => 0);
      sockets := new Socket[MAX_UDP_SOCKETS](_ => Unused);
      arp := new Cache<Ip, Mac>(ARP_CACHE_SIZE);
      new;
      forall port | true ensures Callbacks(sockets[..], port) == [] {
        NoCallbacks(sockets[..], port);
      }
    }

    /** The frame goes out from the current buffer if the card is up and the frame fits. */
    method EthSend(dest: Mac, etype: half, payload: seq<byte>)
      requires Valid() && |payload| + 14 < 0x1_0000
      modifies this`txCur, this`sent, txBuf
      ensures Valid()
      ensures View() == SendFrame(old(View()), dest, etype, payload)
      ensures txCur == if nicOk && |payload| + 14 <= 1536 then (old(txCur) + 1) % 4 else old(txCur)
    {
      if !nicOk {
        return;
      }
      var frameLen := 14 + |payload|;
      if frameLen > TX_BUF_SIZE {
        return;
      }
      var slot := txCur * TX_BUF_SIZE;
      var header: seq<byte> := dest + myMac + NetBytes(etype);
      Put(txBuf, slot, header);
      Put(txBuf, slot + 14, payload);
      assert txBuf[slot..slot + 14] == txBuf[..slot + 14][slot..];
      assert txBuf[slot..slot + frameLen] == header + payload;
      sent := sent + [txBuf[slot..slot + frameLen]];
      txCur := (txCur + 1) % TX_BUF_COUNT;
    }

    // ----- address resolution -----

    method ArpRequest(target: Ip)
      requires Valid()
      modifies this`txCur, this`sent, txBuf
      ensures Valid()
      ensures View() == SendFrame(old(View()), BROADCAST_MAC, ETH_TYPE_ARP, ArpPacket(ARP_REQUEST, myMac, myIp, NO_MAC, target))
    {
      EthSend(BROADCAST_MAC, ETH_TYPE_ARP, ArpPacket(ARP_REQUEST, myMac, myIp, NO_MAC, target));
    }

    /** Learns the sender of every packet and answers requests for this host. */
    method ArpHandle(p: seq<byte>)
      requires Valid()
      modifies this`txCur, this`sent, txBuf, arp.cells
      ensures Valid()
      ensures View() == ArpIn(old(View()), p)
    {
      if |p| < 28 {
        return;
      }
      var senderMac: Mac, senderIp: Ip := p[8..14], p[14..18];
      arp.Put(senderIp, senderIp, senderMac);
      if NetHalf(p, 6) == ARP_REQUEST && p[24..28] == myIp {
        EthSend(senderMac, ETH_TYPE_ARP, ArpPacket(ARP_REPLY, myMac, myIp, senderMac, senderIp));
      }
    }

    /** One poll: the ARP packets among the frames that have arrived. */
    method EthPoll(frames: seq<seq<byte>>)
      requires Valid()
      modifies this`txCur, this`sent, txBuf, arp.cells
      ensures Valid()
      ensures View() == PollIn(old(View()), frames)
    {
      if !nicOk {
        return;
      }
      var i := 0;
      assert frames[0..] == frames;
      while i < |frames|
        invariant i <= |frames| && Valid() && nicOk
        invariant FramesIn(View(), frames[i..]) == FramesIn(old(View()), frames)
      {
        assert frames[i..][1..] == frames[i + 1..];
        if |frames[i]| >= 14 && NetHalf(frames[i], 12) == ETH_TYPE_ARP {
          ArpHandle(frames[i][14..]);
        }
        i := i + 1;
      }
    }

    /** The hardware address for a destination: from the cache, or asked for and waited for. */
    method ArpLookup(dest: Ip, polls: seq<seq<seq<byte>>>) returns (mac: Mac)
      requires Valid()
      modifies this`txCur, this`sent, txBuf, arp.cells
      ensures Valid()
      ensures (mac, View()) == Resolve(old(View()), dest, polls)
    {
      var target := if SameSubnet(dest, myIp, subnet) then dest else gateway;
      var found := arp.Find(target);
      if found.Some? {
        return found.value;
      }
      ArpRequest(target);
      ghost var asked := View();
      var i := 0;
      assert polls[0..] == polls;
      while i < |polls|
        invariant i <= |polls| && Valid()
        invariant WaitMac(View(), target, polls[i..]) == WaitMac(asked, target, polls)
      {
        assert polls[i..][1..] == polls[i + 1..];
        EthPoll(polls[i]);
        found := arp.Find(target);
        if found.Some? {
          return found.value;
        }
        i := i + 1;
      }
      return NO_MAC;
    }

    // ----- sending -----

    /** Builds the packet, resolves the address, and hands the frame to the card. */
    method Ipv4Send(dest: Ip, proto: byte, payload: seq<byte>, polls: seq<seq<seq<byte>>>)
      requires Valid() && |payload| < 0x1_0000
      modifies this`ipId, this`txCur, this`sent, txBuf, arp.cells
      ensures Valid()
      ensures ipId == if |payload| <= 1480 then (old(ipId) + 1) % 0x1_0000 else old(ipId)
      ensures View() == Ipv4Out(old(View()), old(ipId), proto, dest, payload, polls)
    {
      if |payload| + 20 > 1500 {
        return;
      }
      var packet := BuildPacket(dest, proto, payload);
      var mac := BROADCAST_MAC;
      if !ToEveryone(dest) {
        mac := ArpLookup(dest, polls);
      }
      EthSend(mac, ETH_TYPE_IPV4, packet);
    }

    /** The packet with its checksum, under the next identification. */
    method BuildPacket(dest: Ip, proto: byte, payload: seq<byte>) returns (packet: seq<byte>)
      requires Valid() && |payload| <= 1480
      modifies this`ipId
      ensures ipId == (old(ipId) + 1) % 0x1_0000
      ensures packet == IpPacket(old(ipId), proto, myIp, dest, payload)
    {
      var buf := new byte[1500](_ => 0);
      ghost var bare := BareHeader(|payload|, ipId, proto, myIp, dest);
      Put(buf, 0, BareHeader(|payload|, ipId, proto, myIp, dest));
      ipId := (ipId + 1) % 0x1_0000;
      assert buf[..20] == buf[0..0 + |bare|];
      var sum := Ipv4Checksum(buf[..20]);
      PutField(buf, 20, 10, sum);
      Put(buf, 20, payload);
      assert buf[..20 + |payload|] == buf[..20] + buf[20..20 + |payload|];
      packet := buf[..20 + |payload|];
    }

    /** Payloads over 1464 bytes are refused without a trace. */
    method UdpSend(dest: Ip, dstPort: half, srcPort: half, data: seq<byte>, polls: seq<seq<seq<byte>>>)
      requires Valid() && |data| < 0x1_0000
      modifies this`ipId, this`txCur, this`sent, txBuf, arp.cells
      ensures Valid()
      ensures ipId == if |data| <= 1464 then (old(ipId) + 1) % 0x1_0000 else old(ipId)
      ensures View() == UdpOut(old(View()), old(ipId), dest, dstPort, srcPort, data, polls)
    {
      if |data| + 8 > 1472 {
        return;
      }
      var buf := new byte[1472](_ => 0);
      Put(buf, 0, NetBytes(srcPort) + NetBytes(dstPort) + NetBytes(8 + |data|) + [0, 0]);
      Put(buf, 8, data);
      assert buf[..8 + |data|] == buf[..8] + buf[8..8 + |data|];
      assert buf[..8 + |data|] == UdpDatagram(srcPort, dstPort, data);
      assert View() == old(View());
      Ipv4Send(dest, IP_PROTO_UDP, buf[..8 + |data|], polls);
    }

    /** The first free slot takes the binding; other ports keep theirs. Fails exactly when all slots are used. */
    method UdpBind(port: half, callback: nat) returns (ok: bool)
      requires Valid()
      modifies sockets
      ensures Valid()
      ensures ok <==> exists k :: 0 <= k < 8 && old(sockets[k]).Unused?
      ensures !ok ==> sockets[..] == old(sockets[..])
      ensures ok ==> exists k :: TakesFirst(old(sockets[..]), k, sockets[..], Used(port, callback))
      ensures ok ==> multiset(Callbacks(sockets[..], port)) == multiset(old(Callbacks(sockets[..], port))) + multiset{callback}
      ensures forall q :: q != port ==> Callbacks(sockets[..], q) == old(Callbacks(sockets[..], q))
    {
      for i := 0 to MAX_UDP_SOCKETS
        invariant forall k :: 0 <= k < i ==> sockets[k].Used?
        invariant sockets[..] == old(sockets[..])
      {
        if sockets[i].Unused? {
          sockets[i] := Used(port, callback);
          ghost var was := old(sockets[..]);
          assert sockets[..] == was[i := Used(port, callback)];
          assert TakesFirst(was, i, sockets[..], Used(port, callback));
          BindsOne(was, i, port, callback);
          return true;
        }
      }
      return false;
    }

    /** No callback of the port is left; other ports keep theirs. */
    method UdpUnbind(port: half)
      requires Valid()
      modifies sockets
      ensures Valid()
      ensures Callbacks(sockets[..], port) == []
      ensures forall q :: q != port ==> Callbacks(sockets[..], q) == old(Callbacks(sockets[..], q))
    {
      ghost var was := sockets[..];
      for i := 0 to MAX_UDP_SOCKETS
        invariant forall k :: 0 <= k < MAX_UDP_SOCKETS ==> sockets[k] == if k < i then Cleared(was[k], port) else was[k]
      {
        if sockets[i].Used? && sockets[i].port == port {
          sockets[i] := Unused;
        }
      }
      Unbound(was, sockets[..], port);
    }

    /**
     * A frame that some host sent for this one, padded or not, makes the calls its sender meant;
     * any other frame makes the calls its bytes say.
     */
    method Receive(mem: seq<byte>, len: half) returns (calls: seq<Call>)
      requires Valid() && len <= RX_ROOM <= |mem|
      modifies this`txCur, this`sent, txBuf, arp.cells
      ensures Valid()
      ensures View() == FrameIn(old(View()), mem[..len])
      ensures calls == FrameCalls(myIp, sockets[..], mem, len)
      ensures forall id, src, srcMac, dst, dstMac, dstPort, srcPort, data ::
        |data| <= 1464 && (dst == myIp || dst == BROADCAST_IP) && 42 + |data| <= len
        && UdpFrame(id, src, srcMac, dst, dstMac, dstPort, srcPort, data) <= mem ==>
        calls == CallEach(Callbacks(sockets[..], dstPort), src, srcPort, 42, |data|) && mem[42..42 + |data|] == data
    {
      calls := [];
      if len >= 14 && NetHalf(mem, 12) == ETH_TYPE_ARP {
        assert mem[..len][14..] == mem[14..len];
        ArpHandle(mem[14..len]);
      } else if len >= 14 && NetHalf(mem, 12) == ETH_TYPE_IPV4 {
        var d := Ipv4Rx(myIp, mem, 14, len - 14);
        if d.Upper? && d.proto == IP_PROTO_UDP {
          calls := UdpHandle(d.src, mem, d.base, d.len);
        }
      }
      assert calls == FrameCalls(myIp, sockets[..], mem, len);
      forall id, src, srcMac, dst, dstMac, dstPort, srcPort, data |
        |data| <= 1464 && (dst == myIp || dst == BROADCAST_IP) && 42 + |data| <= len
        && UdpFrame(id, src, srcMac, dst, dstMac, dstPort, srcPort, data) <= mem
        ensures calls == CallEach(Callbacks(sockets[..], dstPort), src, srcPort, 42, |data|) && mem[42..42 + |data|] == data
      {
        UdpRoundTrip(myIp, sockets[..], id, src, srcMac, dst, dstMac, dstPort, srcPort, data, mem, len);
      }
    }

    /** Calls every callback bound to the destination port, in slot order. */
    method UdpHandle(src: Ip, mem: seq<byte>, base: nat, len: half) returns (calls: seq<Call>)
      requires Valid() && base + 8 <= |mem|
      ensures calls == UdpCalls(sockets[..], src, mem, base, len)
    {
      calls := [];
      if len < 8 {
        return;
      }
      var port := NetHalf(mem, base + 2);
      var dlen := (NetHalf(mem, base + 4) - 8) % 0x1_0000;
      for i := 0 to MAX_UDP_SOCKETS
        invariant calls == CallEach(Callbacks(sockets[..i], port), src, NetHalf(mem, base), base + 8, dlen)
      {
        ghost var s := sockets[i];
        assert sockets[..i + 1] == sockets[..i] + [s];
        CallbacksAppend(sockets[..i], [s], port);
        CallEachAppend(Callbacks(sockets[..i], port), Callbacks([s], port), src, NetHalf(mem, base), base + 8, dlen);
        if sockets[i].Used? && sockets[i].port == port {
          calls := calls + [Call(sockets[i].callback, src, NetHalf(mem, base), base + 8, dlen)];
        }
      }
      assert sockets[..MAX_UDP_SOCKETS] == sockets[..];
    }
  }
}
