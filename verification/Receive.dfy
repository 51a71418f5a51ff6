/** The receiving side: udp_rx and ip_rx, the dispatch of src/main.c, and the operations of the
    daemon's clients, as one step function on the state. */
module Receive {
  import opened Bytes
  import opened ArpCache
  import opened Host
  import opened Arp
  import opened Ip
  import opened Icmp
  import opened Udp
  import opened Dhcp
  import opened Dns

  /** The datagram holds the bytes its UDP header announces. */
  predicate UdpSized(data: seq<byte>) { |data| >= 8 ==> Get16(data, 4) <= |data| }

  /** udp_rx */
  function UdpRx(s: State, srcIp: u32, data: seq<byte>, now: u64): (r: Out)
    requires UdpSized(data)
  {
    if |data| < 8 || Get16(data, 4) <= 8 then Out(s, [])
    else
      var payload := data[8..Get16(data, 4)];
      if Get16(data, 2) == Dhcp.CLIENT_PORT then DhcpRx(s, srcIp, payload, now)
      else if Get16(data, 0) == DNS_PORT then Out(s.(dns := DnsRx(s.dns, payload)), [])
      else Out(s.(udp := Deliver(s.udp, Get16(data, 2), payload, srcIp, Get16(data, 0))), [])
  }

  /** The frame is long enough, for us or for everyone, and its payload is not empty. */
  predicate Accepts(s: State, f: Frame) {
    && |f| >= ETH_IP
    && (s.config.ip == 0 || DstIp(f) == s.config.ip || DstIp(f) == IP_BCAST)
    && HeaderLen(f) < TotalLen(f)
  }

  /** Every length field stays within the bytes received. */
  predicate FrameOk(f: Frame) {
    WellSized(f) && (|f| >= ETH_IP && HeaderLen(f) < TotalLen(f) && Proto(f) == PROTO_UDP ==> UdpSized(Payload(f)))
  }

  /** ip_rx; the clock may advance between learning the sender and sending an answer. */
  function IpRx(s: State, f: Frame, now: u64, later: u64): (r: Out)
    requires FrameOk(f)
  {
    if !Accepts(s, f) then Out(s, [])
    else
      Dispatch(LearnSender(s, SrcIp(f), SrcMac(f), now), Proto(f), SrcIp(f), Payload(f), later)
  }

  /** The protocol switch of ip_rx. */
  function Dispatch(s: State, proto: byte, srcIp: u32, payload: seq<byte>, now: u64): (r: Out)
    requires proto == PROTO_UDP ==> UdpSized(payload)
  {
    if proto == PROTO_ICMP then IcmpRx(s, srcIp, payload, now)
    else if proto == PROTO_UDP then UdpRx(s, srcIp, payload, now)
    else Out(s, [])
  }

  predicate HasType(f: Frame, ethertype: u16) { |f| >= 14 && Get16(f, 12) == ethertype }

  /** A frame whose length fields are sound, if it is an IP frame. */
  predicate Deliverable(f: Frame) { HasType(f, ETHERTYPE_IP) ==> FrameOk(f) }

  /** rx_once of src/main.c. */
  function RxOnce(s: State, f: Frame, now: u64, later: u64): (r: Out)
    requires Deliverable(f)
  {
    if HasType(f, ETHERTYPE_IP) then IpRx(s, f, now, later)
    else if HasType(f, ETHERTYPE_ARP) then ArpRx(s, f, now)
    else Out(s, [])
  }

  /** The sending half of dns_resolve. */
  function DnsQuery(s: State, name: seq<byte>, now: u64): (r: Out) {
    if s.config.dns == 0 || s.config.ip == 0 then Out(s, [])
    else
      var s1 := s.(dns := DnsState(now % 0x1_0000, 0, 0));
      match BuildQuery(QUERY_MAX, s1.dns.txid, name)
      case None => Out(s1, [])
      case Some(q) => UdpTx(s1, s.config.dns, Dns.CLIENT_PORT, DNS_PORT, q, now)
  }

  /** What dns_resolve returns once the wait is over. */
  function DnsAnswer(s: State): (r: Address) {
    if s.dns.done == 1 then Address.Address(s.dns.result) else NoAddress
  }

  /** An address configured by hand: SET_IP, and the fallback of main.c. */
  function SetConfig(s: State, c: Config): (r: Out) {
    var s1 := s.(config := c);
    if c.ip != 0 then ArpAnnounce(s1) else Out(s1, [])
  }

  /** Everything that can happen to a daemon. */
  datatype Op =
    | Rx(frame: Frame, now: u64, later: u64)
    | SendUdp(dst: u32, srcPort: u16, dstPort: u16, data: seq<byte>, now: u64)
    | SendPing(dst: u32, id: u16, seqNo: u16, now: u64)
    | Resolve(name: seq<byte>, now: u64)
    | Bind(port: u16)
    | Unbind(port: u16)
    | Receive(port: u16, max: nat)
    | LookUp(ip: u32, now: u64)
    | Flush(now: u64)
    | StartDhcp(now: u64)
    | Configure(config: Config)

  predicate LegalOp(op: Op) { op.Rx? ==> Deliverable(op.frame) }

  function Perform(s: State, op: Op): (r: Out)
    requires LegalOp(op)
  {
    match op
    case Rx(f, now, later) => RxOnce(s, f, now, later)
    case SendUdp(dst, sp, dp, data, now) => UdpTx(s, dst, sp, dp, data, now)
    case SendPing(dst, id, seqNo, now) => IcmpPing(s, dst, id, seqNo, now)
    case Resolve(name, now) => DnsQuery(s, name, now)
    case Bind(port) => var b := BindPort(s.udp, port); Out(if b.Some? then s.(udp := b.value) else s, [])
    case Unbind(port) => Out(s.(udp := UnbindPort(s.udp, port)), [])
    case Receive(port, max) => Out(s.(udp := Recv(s.udp, port, max).binds), [])
    case LookUp(ip, now) => Out(s.(arp := Lookup(s.arp, ip, now).cache), [])
    case Flush(_) => Out(s.(arp := EmptyCache()), [])
    case StartDhcp(now) => DhcpStart(s, now)
    case Configure(c) => SetConfig(s, c)
  }

  // ---------------------------------------------------------------- the code

  method RunUdpRx(g: NetState, srcIp: u32, data: seq<byte>, now: u64)
    requires g.Valid() && UdpSized(data)
    modifies g, g.arpCache, g.udpBinds
    ensures g.Valid()
    ensures var r := UdpRx(old(g.Snapshot()), srcIp, data, now);
            g.Snapshot() == r.state && g.sent == old(g.sent) + r.sent
  {
    if |data| < 8 { return; }
    var srcPort, dstPort, udpLen := Get16(data, 0), Get16(data, 2), Get16(data, 4);
    if udpLen <= 8 { return; }
    var payload := data[8..udpLen];
    if dstPort == Dhcp.CLIENT_PORT {
      RunDhcpRx(g, srcIp, payload, now);
      return;
    }
    if srcPort == DNS_PORT {
      RunDnsRx(g, payload);
      return;
    }
    RunDeliver(g, dstPort, payload, srcIp, srcPort);
  }

  method RunIpRx(g: NetState, frame: Frame, now: u64, later: u64)
    requires g.Valid() && FrameOk(frame)
    modifies g, g.arpCache, g.udpBinds
    ensures g.Valid()
    ensures var r := IpRx(old(g.Snapshot()), frame, now, later);
            g.Snapshot() == r.state && g.sent == old(g.sent) + r.sent
  {
    if |frame| < ETH_IP { return; }
    if g.config.ip != 0 && DstIp(frame) != g.config.ip && DstIp(frame) != IP_BCAST { return; }
    var payloadLen := TotalLen(frame) - HeaderLen(frame);
    if payloadLen <= 0 { return; }
    AcceptedIsDispatched(g.Snapshot(), frame, now, later);
    RunLearn(g, SrcIp(frame), SrcMac(frame), now);
    RunDispatch(g, Proto(frame), SrcIp(frame), Payload(frame), later);
  }

  lemma AcceptedIsDispatched(s: State, f: Frame, now: u64, later: u64)
    requires FrameOk(f) && Accepts(s, f)
    ensures IpRx(s, f, now, later) ==
            Dispatch(LearnSender(s, SrcIp(f), SrcMac(f), now), Proto(f), SrcIp(f), Payload(f), later)
  {}

  method RunDispatch(g: NetState, proto: byte, srcIp: u32, payload: seq<byte>, now: u64)
    requires g.Valid() && (proto == PROTO_UDP ==> UdpSized(payload))
    modifies g, g.arpCache, g.udpBinds
    ensures g.Valid()
    ensures var r := Dispatch(old(g.Snapshot()), proto, srcIp, payload, now);
            g.Snapshot() == r.state && g.sent == old(g.sent) + r.sent
  {
    if proto == PROTO_ICMP {
      RunIcmpRx(g, srcIp, payload, now);
    } else if proto == PROTO_UDP {
      RunUdpRx(g, srcIp, payload, now);
    }
  }

  method RunRxOnce(g: NetState, frame: Frame, now: u64, later: u64)
    requires g.Valid() && Deliverable(frame)
    modifies g, g.arpCache, g.udpBinds
    ensures g.Valid()
    ensures var r := RxOnce(old(g.Snapshot()), frame, now, later);
            g.Snapshot() == r.state && g.sent == old(g.sent) + r.sent
  {
    if |frame| < 14 { return; }
    var et := Pair(frame[12], frame[13]);
    if et == ETHERTYPE_IP {
      RunIpRx(g, frame, now, later);
    } else if et == ETHERTYPE_ARP {
      RunArpRx(g, frame, now);
    }
  }

  method RunDnsQuery(g: NetState, name: seq<byte>, now: u64)
    requires g.Valid()
    modifies g, g.arpCache
    ensures g.Valid()
    ensures var r := DnsQuery(old(g.Snapshot()), name, now);
            g.Snapshot() == r.state && g.sent == old(g.sent) + r.sent
  {
    if g.config.dns == 0 || g.config.ip == 0 { return; }
    g.dns := DnsState(now % 0x1_0000, 0, 0);
    var query := new byte[QUERY_MAX](_ => 0);
    var len := RunBuildQuery(query, g.dns.txid, name);
    if len.None? { return; }
    var ok := RunUdpTx(g, g.config.dns, Dns.CLIENT_PORT, DNS_PORT, query[..len.value], now);
  }
}
