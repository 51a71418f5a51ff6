/** What a daemon does not react to, and how little it then changes. */
module Ignored {
  import opened Bytes
  import opened ArpCache
  import opened Host
  import opened Arp
  import opened Ip
  import opened Icmp
  import opened Udp
  import opened Dhcp
  import opened Dns
  import opened Receive

  // ---------------------------------------------------------------- messages

  /** A DNS message that is too short, has another number than the open query, or is no response. */
  lemma DnsIgnores(s: DnsState, d: seq<byte>)
    requires |d| < 12 || (d[0] as int) * 0x100 + d[1] != s.txid || d[2] < 0x80
    ensures DnsRx(s, d) == s
  {}

  /** A response without records, or without an address among them, fails; it never answers. */
  lemma DnsEmptyFails(s: DnsState, d: seq<byte>)
    requires |d| >= 12 && Get16(d, 0) == s.txid && d[2] >= 0x80 && d[6] == 0 && d[7] == 0
    ensures DnsRx(s, d) == s.(done := -1)
  {}

  /** A DHCP message that is too short, no BOOTREPLY, of another session, or without the cookie. */
  lemma DhcpIgnores(s: State, srcIp: u32, d: seq<byte>, now: u64)
    requires |d| < 240 || d[0] != 2 || Get32(d, 4) != s.xid || Get32(d, 236) != 0x6382_5363
    ensures DhcpRx(s, srcIp, d, now) == Out(s, [])
  {}

  /** An ICMP message that is too short, neither request nor reply, or a reply with other numbers
      than the last ping's. */
  lemma IcmpIgnores(s: State, src: u32, d: seq<byte>, now: u64)
    requires |d| < 8 || (d[0] != 8 && (d[0] != 0 || Get16(d, 4) != s.ping.id || Get16(d, 6) != s.ping.seqNo))
    ensures IcmpRx(s, src, d, now) == Out(s, [])
  {}

  /** A reply with the right numbers completes the ping, and a request leaves it alone. */
  lemma IcmpPingState(s: State, src: u32, d: seq<byte>, now: u64)
    requires |d| >= 8
    ensures var p := IcmpRx(s, src, d, now).state.ping;
            p == if d[0] == 0 && Get16(d, 4) == s.ping.id && Get16(d, 6) == s.ping.seqNo
                 then Ping(s.ping.id, s.ping.seqNo, src, true) else s.ping
  {
    if d[0] == 8 { IpTxKeepsPing(s, src, PROTO_ICMP, EchoReply(d), now); }
  }

  lemma IpTxKeepsPing(s: State, dst: u32, proto: byte, payload: seq<byte>, now: u64)
    requires |payload| <= IP_MAX_PAYLOAD
    ensures IpTx(s, dst, proto, payload, now).state.ping == s.ping
  {}

  /** icmp_ping opens a ping with its numbers, for which no reply has come yet. */
  lemma PingIsOpen(s: State, dst: u32, id: u16, seqNo: u16, now: u64)
    ensures IcmpPing(s, dst, id, seqNo, now).state.ping == Ping(id, seqNo, s.ping.replyIp, false)
  {
    IpTxKeepsPing(s.(ping := s.ping.(id := id, seqNo := seqNo, replied := false)), dst, PROTO_ICMP, PingMessage(id, seqNo), now);
  }

  /** A datagram that is cut off or empty; one for a port nobody has bound. */
  lemma UdpIgnores(s: State, srcIp: u32, d: seq<byte>, now: u64)
    requires UdpSized(d)
    requires |d| < 8 || Get16(d, 4) <= 8
             || (Get16(d, 2) != 68 && Get16(d, 0) != 53 && Box(s.udp, Get16(d, 2)).Unbound?)
    ensures UdpRx(s, srcIp, d, now) == Out(s, [])
  {}

  /** More than 1472 bytes are not sent, and nothing changes. */
  lemma UdpTooLarge(s: State, dst: u32, srcPort: u16, dstPort: u16, data: seq<byte>, now: u64)
    requires |data| > 1472
    ensures UdpTx(s, dst, srcPort, dstPort, data, now) == Out(s, [])
  {}

  /** Bytes behind the datagram's own length are not part of it; port 68 goes to DHCP, then port 53
      of the sender to DNS, and everything else to the mailbox of its port. */
  lemma PaddedDatagram(s: State, srcIp: u32, srcPort: u16, dstPort: u16, data: seq<byte>, pad: seq<byte>, now: u64)
    requires 0 < |data| <= 1472
    ensures var d := UdpPacket(srcPort, dstPort, data) + pad;
            && UdpSized(d)
            && UdpRx(s, srcIp, d, now) ==
               if dstPort == 68 then DhcpRx(s, srcIp, data, now)
               else if srcPort == 53 then Out(s.(dns := DnsRx(s.dns, data)), [])
               else Out(s.(udp := Deliver(s.udp, dstPort, data, srcIp, srcPort)), [])
  {
    var p := UdpPacket(srcPort, dstPort, data);
    var d := p + pad;
    UdpPacketFields(srcPort, dstPort, data);
    assert forall i :: 0 <= i < 8 ==> d[i] == p[i];
    assert d[8..8 + |data|] == p[8..];
  }

  // ---------------------------------------------------------------- ARP

  /** What arp_rx learns: the sender of any frame long enough, unless its address is 0. */
  ghost predicate LearnsOnly(s: State, f: Frame, now: u64, t: State) {
    t == if |f| >= 42 && Get32(f, 28) != 0 then LearnSender(s, Get32(f, 28), f[22..28], now) else s
  }

  /** Only a request for the own address, once there is one, is answered: with one reply to the
      asker that names the owner. */
  lemma ArpAnswersOwn(s: State, f: Frame, now: u64)
    ensures LearnsOnly(s, f, now, ArpRx(s, f, now).state)
    ensures ArpRx(s, f, now).sent != [] <==>
            |f| >= 42 && Get16(f, 20) == 1 && Get32(f, 38) == s.config.ip && s.config.ip != 0
    ensures ArpRx(s, f, now).sent != [] ==>
              && |ArpRx(s, f, now).sent| == 1
              && var r := ArpRx(s, f, now).sent[0];
                 && |r| == 42 && r[..6] == f[22..28] && r[6..12] == s.mac && Get16(r, 20) == 2
                 && r[22..28] == s.mac && Get32(r, 28) == s.config.ip && r[32..38] == f[22..28] && Get32(r, 38) == Get32(f, 28)
  {
    if ArpRx(s, f, now).sent != [] {
      ArpFrameFields(ARP_REPLY, ArpSrcMac(f), s.mac, s.config.ip, ArpSrcIp(f));
    }
  }

  // ---------------------------------------------------------------- frames

  /** Anything but IP and ARP, and an IP frame that is cut off, for somebody else, or empty. */
  lemma FrameIgnored(s: State, f: Frame, now: u64, later: u64)
    requires Deliverable(f)
    requires |f| < 14 || (Get16(f, 12) != 0x0800 && Get16(f, 12) != 0x0806)
             || (Get16(f, 12) == 0x0800 &&
                 (|f| < 34 || (s.config.ip != 0 && Get32(f, 30) != s.config.ip && Get32(f, 30) != 0xFFFF_FFFF)
                  || Get16(f, 16) <= f[14] % 16 * 4))
    ensures RxOnce(s, f, now, later) == Out(s, [])
  {}

  /** An IP frame of a protocol other than ICMP and UDP only teaches its sender's address. */
  lemma OtherProtocolTeaches(s: State, f: Frame, now: u64, later: u64)
    requires Deliverable(f) && HasType(f, 0x0800) && Accepts(s, f) && f[23] != 1 && f[23] != 17
    ensures RxOnce(s, f, now, later) == Out(LearnSender(s, Get32(f, 26), f[6..12], now), [])
  {
    AcceptedIsDispatched(s, f, now, later);
  }

  /** An IP frame as any machine may send it: a header with or without options, a payload, and
      padding behind it. */
  ghost predicate IsFrameOf(f: Frame, dstMac: Mac, srcMac: Mac, h: seq<byte>, payload: seq<byte>, pad: seq<byte>) {
    && 20 <= |h| == h[0] % 16 * 4 && |h| + |payload| < 0x1_0000 && Get16(h, 2) == |h| + |payload|
    && f == dstMac + srcMac + [8, 0] + h + payload + pad
  }

  lemma ForeignFields(f: Frame, dstMac: Mac, srcMac: Mac, h: seq<byte>, payload: seq<byte>, pad: seq<byte>)
    requires IsFrameOf(f, dstMac, srcMac, h, payload, pad)
    ensures HasType(f, 0x0800) && |f| >= ETH_IP && WellSized(f)
    ensures HeaderLen(f) == |h| && TotalLen(f) == |h| + |payload| && Payload(f) == payload
    ensures SrcMac(f) == srcMac && SrcIp(f) == Get32(h, 12) && DstIp(f) == Get32(h, 16) && Proto(f) == h[9]
  {
    var e := dstMac + srcMac + [8, 0];
    var q := payload + pad;
    assert f == e + h + q;
    GetShift(e, h, q, 0);
    GetShift(e, h, q, 2);
    GetShift(e, h, q, 9);
    GetShift(e, h, q, 12);
    GetShift(e, h, q, 16);
    assert f[12] == 8 && f[13] == 0 && f[6..12] == srcMac;
    assert f[14 + |h|..14 + |h| + |payload|] == payload;
  }

  /** Its payload reaches the protocol whatever options and padding surround it. */
  lemma ForeignFrameArrives(s: State, f: Frame, dstMac: Mac, srcMac: Mac, h: seq<byte>, payload: seq<byte>, pad: seq<byte>,
                            now: u64, later: u64)
    requires IsFrameOf(f, dstMac, srcMac, h, payload, pad) && payload != [] && (h[9] == 17 ==> UdpSized(payload))
    requires s.config.ip == 0 || Get32(h, 16) == s.config.ip || Get32(h, 16) == 0xFFFF_FFFF
    ensures Deliverable(f)
    ensures var s1 := LearnSender(s, Get32(h, 12), srcMac, now);
            RxOnce(s, f, now, later) ==
            if h[9] == 1 then IcmpRx(s1, Get32(h, 12), payload, later)
            else if h[9] == 17 then UdpRx(s1, Get32(h, 12), payload, later)
            else Out(s1, [])
  {
    ForeignFields(f, dstMac, srcMac, h, payload, pad);
    AcceptedIsDispatched(s, f, now, later);
  }

  // ---------------------------------------------------------------- requests of clients

  /** Without a server or an address, dns_resolve asks nothing and leaves the last answer alone. */
  lemma ResolveNeedsConfig(s: State, name: seq<byte>, now: u64)
    requires s.config.dns == 0 || s.config.ip == 0
    ensures DnsQuery(s, name, now) == Out(s, [])
  {}

  /** A name that does not fit opens a query that nothing was sent for. */
  lemma ResolveNeedsRoom(s: State, name: seq<byte>, now: u64)
    requires s.config.dns != 0 && s.config.ip != 0 && name != [] && 12 + |EncodeName(name)| + 5 >= 256
    ensures DnsQuery(s, name, now) == Out(s.(dns := DnsState(now % 0x1_0000, 0, 0)), [])
  {
    QueryFits(256, now % 0x1_0000, name);
  }

  /** SET_IP with an address announces it; without one it is silent. */
  lemma ConfigureAnnounces(s: State, c: Config)
    ensures var o := SetConfig(s, c);
            && o.state == s.(config := c)
            && (if c.ip == 0 then o.sent == [] else o.sent == [ArpFrame(1, BCAST_MAC, s.mac, c.ip, c.ip)])
  {}
}
