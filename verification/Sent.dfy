/** What the frames a daemon sends say: their protocol fields, and whose addresses they carry. */
module Sent {
  import opened Bytes
  import opened ArpCache
  import opened Host
  import opened Arp
  import opened Ip
  import opened Icmp
  import opened Udp
  import opened DhcpOptions
  import opened Dhcp
  import opened Dns
  import opened Receive

  /** An IP frame of the given state, read back. */
  ghost predicate IsIp(f: Frame, s: State, dst: u32, proto: byte, payload: seq<byte>) {
    && HasType(f, ETHERTYPE_IP) && |f| >= ETH_IP && WellSized(f)
    && HeaderLen(f) == 20 && TotalLen(f) == 20 + |payload| && Payload(f) == payload
    && Proto(f) == proto && DstIp(f) == dst && SrcIp(f) == s.config.ip && SrcMac(f) == s.mac
  }

  /** An ARP frame of the given state. */
  ghost predicate IsArp(f: Frame, s: State) {
    HasType(f, ETHERTYPE_ARP) && |f| == ARP_LEN && ArpSrcIp(f) == s.config.ip && ArpSrcMac(f) == s.mac
  }

  lemma ArpFrameIsArp(s: State, op: u16, dst: Mac, dstIp: u32)
    ensures IsArp(ArpFrame(op, dst, s.mac, s.config.ip, dstIp), s)
  {
    ArpFrameFields(op, dst, s.mac, s.config.ip, dstIp);
  }

  lemma EmitIsIp(s: State, dstMac: Mac, dst: u32, proto: byte, payload: seq<byte>)
    requires |payload| <= IP_MAX_PAYLOAD
    ensures IsIp(IpFrame(s, dstMac, dst, proto, payload), s, dst, proto, payload)
  {
    IpFrameFields(s, dstMac, dst, proto, payload);
  }

  /** ip_tx sends one IP frame, possibly after one ARP request. */
  lemma IpTxSends(s: State, dst: u32, proto: byte, payload: seq<byte>, now: u64)
    requires |payload| <= IP_MAX_PAYLOAD
    ensures var o := IpTx(s, dst, proto, payload, now);
            && 1 <= |o.sent| <= 2 && IsIp(o.sent[|o.sent| - 1], s, dst, proto, payload)
            && (|o.sent| == 2 ==> IsArp(o.sent[0], s))
            && (dst == IP_BCAST ==> |o.sent| == 1 && o.sent[0][..6] == BCAST_MAC)
  {
    var hop := NextHop(s.config, dst);
    EmitIsIp(s, BCAST_MAC, dst, proto, payload);
    IpFrameFields(s, BCAST_MAC, dst, proto, payload);
    if !(hop == IP_BCAST || dst == IP_BCAST) {
      var r := Lookup(s.arp, hop, now);
      var s1 := s.(arp := r.cache);
      EmitIsIp(s1, BCAST_MAC, dst, proto, payload);
      ArpFrameIsArp(s1, ARP_REQUEST, BCAST_MAC, hop);
      if r.mac.Some? { EmitIsIp(s1, r.mac.value, dst, proto, payload); }
    }
  }

  // ---------------------------------------------------------------- whose addresses

  /** The frame carries this pair of addresses as its sender's, and sound length fields. */
  ghost predicate SpeaksFor(f: Frame, ip: u32, mac: Mac) {
    && Deliverable(f)
    && (HasType(f, ETHERTYPE_IP) && |f| >= ETH_IP ==> SrcIp(f) == ip && SrcMac(f) == mac)
    && (HasType(f, ETHERTYPE_ARP) && |f| >= ARP_LEN ==> ArpSrcIp(f) == ip && ArpSrcMac(f) == mac)
  }

  lemma IsIpSpeaks(f: Frame, s: State, dst: u32, proto: byte, payload: seq<byte>)
    requires IsIp(f, s, dst, proto, payload) && (proto == PROTO_UDP ==> UdpSized(payload))
    ensures SpeaksFor(f, s.config.ip, s.mac)
  {}

  lemma IsArpSpeaks(f: Frame, s: State)
    requires IsArp(f, s)
    ensures SpeaksFor(f, s.config.ip, s.mac)
  {}

  /** Everything sent carries the addresses the sender has once it is done. */
  ghost predicate AllSpeak(o: Out) {
    forall i :: 0 <= i < |o.sent| ==> SpeaksFor(o.sent[i], o.state.config.ip, o.state.mac)
  }

  lemma IpTxSpeaks(s: State, dst: u32, proto: byte, payload: seq<byte>, now: u64)
    requires |payload| <= IP_MAX_PAYLOAD && (proto == PROTO_UDP ==> UdpSized(payload))
    ensures AllSpeak(IpTx(s, dst, proto, payload, now))
  {
    var o := IpTx(s, dst, proto, payload, now);
    IpTxSends(s, dst, proto, payload, now);
    IsIpSpeaks(o.sent[|o.sent| - 1], s, dst, proto, payload);
    if |o.sent| == 2 { IsArpSpeaks(o.sent[0], s); }
    assert o.state.config == s.config && o.state.mac == s.mac;
  }

  lemma UdpTxSpeaks(s: State, dst: u32, srcPort: u16, dstPort: u16, data: seq<byte>, now: u64)
    ensures AllSpeak(UdpTx(s, dst, srcPort, dstPort, data, now))
  {
    if |data| <= UDP_MAX_DATA {
      UdpPacketFields(srcPort, dstPort, data);
      IpTxSpeaks(s, dst, PROTO_UDP, UdpPacket(srcPort, dstPort, data), now);
    }
  }

  lemma AnnounceSpeaks(s: State)
    ensures AllSpeak(ArpAnnounce(s))
  {
    ArpFrameIsArp(s, ARP_REQUEST, BCAST_MAC, s.config.ip);
    IsArpSpeaks(ArpAnnounce(s).sent[0], s);
  }

  lemma ArpRxSpeaks(s: State, f: Frame, now: u64)
    ensures AllSpeak(ArpRx(s, f, now))
  {
    var o := ArpRx(s, f, now);
    if o.sent != [] {
      ArpFrameIsArp(s, ARP_REPLY, ArpSrcMac(f), ArpSrcIp(f));
      IsArpSpeaks(o.sent[0], s);
    }
  }

  lemma DhcpRxSpeaks(s: State, srcIp: u32, d: seq<byte>, now: u64)
    ensures AllSpeak(DhcpRx(s, srcIp, d, now))
  {
    if Offers(s, d) {
      var server := OfferedBy(srcIp, d);
      var s1 := s.(server := server, phase := Request);
      UdpTxSpeaks(s1, IP_BCAST, Dhcp.CLIENT_PORT, SERVER_PORT, ClientMessage(s1.mac, s1.xid, DHCP_REQUEST, YourIp(d), server), now);
    } else if Acks(s, d) {
      AnnounceSpeaks(s.(config := Granted(d), phase := Bound));
    }
  }

  lemma DispatchSpeaks(s: State, proto: byte, srcIp: u32, payload: seq<byte>, now: u64)
    requires proto == PROTO_UDP ==> UdpSized(payload)
    ensures AllSpeak(Dispatch(s, proto, srcIp, payload, now))
  {
    if proto == PROTO_ICMP && |payload| >= 8 && payload[0] == ECHO_REQUEST {
      IpTxSpeaks(s, srcIp, PROTO_ICMP, EchoReply(payload), now);
    } else if proto == PROTO_UDP && |payload| >= 8 && Get16(payload, 4) > 8 {
      DhcpRxSpeaks(s, srcIp, payload[8..Get16(payload, 4)], now);
    }
  }

  /** Whatever a daemon does, each frame it sends is sound and carries its own pair of addresses. */
  lemma PerformSpeaks(s: State, op: Op)
    requires LegalOp(op)
    ensures AllSpeak(Perform(s, op))
  {
    match op
    case Rx(f, now, later) =>
      if HasType(f, ETHERTYPE_IP) && Accepts(s, f) {
        AcceptedIsDispatched(s, f, now, later);
        DispatchSpeaks(LearnSender(s, SrcIp(f), SrcMac(f), now), Proto(f), SrcIp(f), Payload(f), later);
      } else if HasType(f, ETHERTYPE_ARP) {
        ArpRxSpeaks(s, f, now);
      }
    case SendUdp(dst, sp, dp, data, now) => UdpTxSpeaks(s, dst, sp, dp, data, now);
    case SendPing(dst, id, seqNo, now) =>
      IpTxSpeaks(s.(ping := s.ping.(id := id, seqNo := seqNo, replied := false)), dst, PROTO_ICMP, PingMessage(id, seqNo), now);
    case Resolve(name, now) => QuerySpeaks(s, name, now);
    case StartDhcp(now) =>
      var s1 := Started(s, now);
      UdpTxSpeaks(s1, IP_BCAST, Dhcp.CLIENT_PORT, SERVER_PORT, ClientMessage(s1.mac, s1.xid, DHCP_DISCOVER, 0, 0), now);
    case Configure(c) => AnnounceSpeaks(s.(config := c));
    case _ =>
  }

  lemma QuerySpeaks(s: State, name: seq<byte>, now: u64)
    ensures AllSpeak(DnsQuery(s, name, now))
  {
    var s1 := s.(dns := DnsState(now % 0x1_0000, 0, 0));
    var q := BuildQuery(QUERY_MAX, s1.dns.txid, name);
    if q.Some? { UdpTxSpeaks(s1, s.config.dns, Dns.CLIENT_PORT, DNS_PORT, q.value, now); }
  }
}
