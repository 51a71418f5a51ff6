/** What a DHCP client says to its servers after dhcp_start: at most one REQUEST, and nothing else. */
module DhcpRequests {
  import opened Bytes
  import opened Host
  import opened Arp
  import opened Ip
  import opened Icmp
  import opened Udp
  import opened DhcpOptions
  import opened Dhcp
  import opened Dns
  import opened Receive
  import opened Sent
  import opened DhcpRuns

  /** A UDP datagram to a DHCP server. */
  predicate ToServer(f: Frame) {
    && HasType(f, 0x0800) && |f| >= ETH_IP && WellSized(f) && HeaderLen(f) <= TotalLen(f)
    && Proto(f) == 17 && |Payload(f)| >= 8 && Get16(Payload(f), 2) == 67
  }

  /** A message of the session, broadcast from port 68, as its receivers read it. */
  ghost predicate IsClientMessage(f: Frame, s: State, msgType: byte) {
    && ToServer(f) && f[..6] == BCAST_MAC && DstIp(f) == 0xFFFF_FFFF && SrcIp(f) == s.config.ip && SrcMac(f) == s.mac
    && Get16(Payload(f), 0) == 68 && Get16(Payload(f), 4) == |Payload(f)|
    && ClientReads(Payload(f)[8..], s.mac, s.xid, msgType)
  }

  /** A REQUEST for this address, to this server. */
  ghost predicate IsRequest(f: Frame, s: State, reqIp: u32, server: u32) {
    && IsClientMessage(f, s, 3)
    && var o := Payload(f)[248..]; GetOpt32(o, 50) == reqIp && GetOpt32(o, 54) == server
  }

  lemma MessageIsSent(s: State, msgType: byte, reqIp: u32, server: u32, now: u64)
    ensures var o := DhcpSend(s, msgType, reqIp, server, now);
            && |o.sent| == 1 && IsClientMessage(o.sent[0], s, msgType)
            && Payload(o.sent[0])[8..] == ClientMessage(s.mac, s.xid, msgType, reqIp, server)
  {
    var m := ClientMessage(s.mac, s.xid, msgType, reqIp, server);
    ClientMessageFields(s.mac, s.xid, msgType, reqIp, server);
    UdpPacketFields(Dhcp.CLIENT_PORT, SERVER_PORT, m);
    IpTxSends(s, IP_BCAST, PROTO_UDP, UdpPacket(Dhcp.CLIENT_PORT, SERVER_PORT, m), now);
  }

  lemma RequestIsSent(s: State, reqIp: u32, server: u32, now: u64)
    ensures var o := DhcpSend(s, DHCP_REQUEST, reqIp, server, now);
            |o.sent| == 1 && IsRequest(o.sent[0], s, reqIp, server)
  {
    var m := ClientMessage(s.mac, s.xid, DHCP_REQUEST, reqIp, server);
    MessageIsSent(s, DHCP_REQUEST, reqIp, server, now);
    ClientMessageFields(s.mac, s.xid, DHCP_REQUEST, reqIp, server);
    var p := Payload(DhcpSend(s, DHCP_REQUEST, reqIp, server, now).sent[0]);
    assert p[248..] == p[8..][240..];
  }

  /** dhcp_start broadcasts one DISCOVER of the new session from address 0, and has port 68 bound
      whenever a slot was unused. */
  lemma DiscoverIsSent(s: State, now: u64)
    requires Table(s.udp)
    ensures var o := DhcpStart(s, now);
            && |o.sent| == 1 && IsClientMessage(o.sent[0], o.state, 1) && SrcIp(o.sent[0]) == 0
            && o.state.config == Config(0, 0, 0, 0)
            && (Box(o.state.udp, 68).Unbound? <==> Box(s.udp, 68).Unbound? && forall i :: 0 <= i < 16 ==> s.udp[i].used)
            && forall port: u16 :: port != 68 ==> Box(o.state.udp, port) == Box(s.udp, port)
  {
    var s1 := Started(s, now);
    MessageIsSent(s1, DHCP_DISCOVER, 0, 0, now);
    BindLaw(s.udp, Dhcp.CLIENT_PORT);
    StartKeeps(s, now);
  }

  lemma StartKeeps(s: State, now: u64)
    ensures var t, s1 := DhcpStart(s, now).state, Started(s, now);
            t.config == s1.config && t.mac == s1.mac && t.xid == s1.xid && t.udp == s1.udp
  {}

  /** Sessions started at different times, modulo 2^32 ms, have different numbers. */
  lemma SessionsDiffer(s: State, t: State, a: u64, b: u64)
    requires a % 0x1_0000_0000 != b % 0x1_0000_0000
    ensures DhcpStart(s, a).state.xid != DhcpStart(t, b).state.xid
  {
    StartKeeps(s, a);
    StartKeeps(t, b);
    Xor32Cancels(a % 0x1_0000_0000, b % 0x1_0000_0000, 0xABCD_1234);
  }

  /** An accepted OFFER is answered with a REQUEST for its address, to its server. */
  lemma OfferSendsRequest(s: State, op: Op)
    requires LegalOp(op) && Judge(s, op).Offered?
    ensures var o := Perform(s, op);
            |o.sent| == 1 && IsRequest(o.sent[0], s, YourIp(Brings(s, op).value), Judge(s, op).server)
  {
    var d := Brings(s, op).value;
    RxLease(s, op.frame, op.now, op.later);
    var s1 := LearnSender(s, SrcIp(op.frame), SrcMac(op.frame), op.now);
    RequestIsSent(s1.(server := Judge(s, op).server, phase := Request), YourIp(d), Judge(s, op).server, op.later);
  }

  // ---------------------------------------------------------------- and nothing else

  ghost predicate Silent(o: Out) { forall i :: 0 <= i < |o.sent| ==> !ToServer(o.sent[i]) }

  lemma IpTxSilent(s: State, dst: u32, proto: byte, payload: seq<byte>, now: u64)
    requires |payload| <= IP_MAX_PAYLOAD
    requires !(proto == PROTO_UDP && |payload| >= 8 && Get16(payload, 2) == SERVER_PORT)
    ensures Silent(IpTx(s, dst, proto, payload, now))
  {
    IpTxSends(s, dst, proto, payload, now);
  }

  lemma UdpTxSilent(s: State, dst: u32, srcPort: u16, dstPort: u16, data: seq<byte>, now: u64)
    requires dstPort != SERVER_PORT
    ensures Silent(UdpTx(s, dst, srcPort, dstPort, data, now))
  {
    if |data| <= UDP_MAX_DATA {
      UdpPacketFields(srcPort, dstPort, data);
      IpTxSilent(s, dst, PROTO_UDP, UdpPacket(srcPort, dstPort, data), now);
    }
  }

  lemma DispatchSilent(s: State, proto: byte, srcIp: u32, payload: seq<byte>, now: u64)
    requires proto == PROTO_UDP ==> UdpSized(payload)
    requires !(proto == PROTO_UDP && |payload| >= 8 && Get16(payload, 4) > 8 && Get16(payload, 2) == Dhcp.CLIENT_PORT)
    ensures Silent(Dispatch(s, proto, srcIp, payload, now))
  {
    if proto == PROTO_ICMP && |payload| >= 8 && payload[0] == ECHO_REQUEST {
      IpTxSilent(s, srcIp, PROTO_ICMP, EchoReply(payload), now);
    }
  }

  lemma RxSilent(s: State, f: Frame, now: u64, later: u64)
    requires Deliverable(f)
    requires match DhcpData(s, f) case None => true case Some(d) => !Offers(s, d)
    ensures Silent(RxOnce(s, f, now, later))
  {
    RxLease(s, f, now, later);
    if HasType(f, ETHERTYPE_IP) && Accepts(s, f) {
      AcceptedIsDispatched(s, f, now, later);
      if DhcpData(s, f).None? {
        DispatchSilent(LearnSender(s, SrcIp(f), SrcMac(f), now), Proto(f), SrcIp(f), Payload(f), later);
      }
    }
    ArpFramesAreArp(s, f, now);
  }

  lemma ArpFramesAreArp(s: State, f: Frame, now: u64)
    ensures Silent(ArpRx(s, f, now)) && forall t: State :: Silent(ArpAnnounce(t))
  {
    if |f| >= ARP_LEN { ArpFrameIsArp(s, ARP_REPLY, ArpSrcMac(f), ArpSrcIp(f)); }
    forall t: State ensures Silent(ArpAnnounce(t)) { ArpFrameIsArp(t, ARP_REQUEST, BCAST_MAC, t.config.ip); }
  }

  /** Clients of the daemon do not themselves write to DHCP servers. */
  predicate LeavesServersAlone(op: Op) { op.SendUdp? ==> op.dstPort != SERVER_PORT }

  lemma OnlyOffersSend(s: State, op: Op)
    requires Ordinary(op) && LeavesServersAlone(op) && !Judge(s, op).Offered?
    ensures Silent(Perform(s, op))
  {
    match op
    case Rx(f, now, later) => RxSilent(s, f, now, later);
    case SendUdp(dst, sp, dp, data, now) => UdpTxSilent(s, dst, sp, dp, data, now);
    case SendPing(dst, id, seqNo, now) =>
      IpTxSilent(s.(ping := s.ping.(id := id, seqNo := seqNo, replied := false)), dst, PROTO_ICMP, PingMessage(id, seqNo), now);
    case Resolve(name, now) =>
      var s1 := s.(dns := DnsState(now % 0x1_0000, 0, 0));
      var q := BuildQuery(QUERY_MAX, s1.dns.txid, name);
      if q.Some? { UdpTxSilent(s1, s.config.dns, Dns.CLIENT_PORT, DNS_PORT, q.value, now); }
    case _ =>
  }

  /** Step i of the run sends a datagram to a DHCP server. */
  ghost predicate Asks(states: seq<State>, ops: seq<Op>, i: nat)
    requires Trace(states, ops) && i < |ops|
  {
    !Silent(Perform(states[i], ops[i]))
  }

  /** In every run from dhcp_start on the server hears at most once: the step that accepts an
      OFFER of the session sends one REQUEST, with that OFFER's address and server. */
  lemma OneRequest(states: seq<State>, ops: seq<Op>, i: nat)
    requires Trace(states, ops) && (forall k :: 0 <= k < |ops| ==> LeavesServersAlone(ops[k])) && i < |ops|
    ensures Asks(states, ops, i) <==> Judge(states[i], ops[i]).Offered?
    ensures Asks(states, ops, i) ==>
              && Hears(states, ops, i, DHCP_OFFER)
              && var d, sent := Brings(states[i], ops[i]).value, Perform(states[i], ops[i]).sent;
                 |sent| == 1 && IsRequest(sent[0], states[i], YourIp(d), OfferedBy(SrcIp(ops[i].frame), d))
    ensures forall j :: 0 <= j < |ops| && Asks(states, ops, i) && Asks(states, ops, j) ==> i == j
  {
    assert LeavesServersAlone(ops[i]);
    AskedIsOffered(states, ops, i);
    JudgedAt(states, ops, i);
    TraceIsLeaseRun(states, ops);
    var ls, vs := Leases(states), Verdicts(states, ops);
    forall j | 0 <= j < |ops| && Asks(states, ops, i) && Asks(states, ops, j) ensures i == j {
      assert LeavesServersAlone(ops[j]);
      AskedIsOffered(states, ops, j);
      assert vs[i].Offered? && vs[j].Offered?;
      OneOffer(ls, vs, i, j);
    }
  }

  lemma AskedIsOffered(states: seq<State>, ops: seq<Op>, i: nat)
    requires Trace(states, ops) && i < |ops| && LeavesServersAlone(ops[i])
    ensures Asks(states, ops, i) <==> Judge(states[i], ops[i]).Offered?
    ensures Asks(states, ops, i) ==>
              && Judge(states[i], ops[i]).server == OfferedBy(SrcIp(ops[i].frame), Brings(states[i], ops[i]).value)
              && var sent := Perform(states[i], ops[i]).sent;
                 |sent| == 1 && IsRequest(sent[0], states[i], YourIp(Brings(states[i], ops[i]).value), Judge(states[i], ops[i]).server)
  {
    var s, op := states[i], ops[i];
    assert Ordinary(op);
    if Judge(s, op).Offered? {
      OfferSendsRequest(s, op);
      assert ToServer(Perform(s, op).sent[0]);
    } else {
      OnlyOffersSend(s, op);
    }
  }
}
