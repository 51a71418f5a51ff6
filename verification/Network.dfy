/** Any number of daemons on one link, and what no run of theirs can bring about: an address
    resolved to the wrong machine. */
module Network {
  import opened Bytes
  import opened ArpCache
  import opened Host
  import opened Arp
  import opened Ip
  import opened Icmp
  import opened Udp
  import opened DhcpOptions
  import opened Dhcp
  import opened Dns
  import opened Receive
  import opened Sent
  import opened Routing
  import DhcpRuns

  /** Which machine owns which address; every address has one owner. */
  type Plan = map<u32, Mac>

  predicate Owns(plan: Plan, mac: Mac, ip: u32) { ip == 0 || (ip in plan && plan[ip] == mac) }

  /** Every sender address a receiver could take from the frame belongs to its sender. */
  predicate Truthful(plan: Plan, f: Frame) {
    && Deliverable(f)
    && (HasType(f, ETHERTYPE_IP) && |f| >= ETH_IP ==> Owns(plan, SrcMac(f), SrcIp(f)))
    && (HasType(f, ETHERTYPE_ARP) && |f| >= ARP_LEN ==> Owns(plan, ArpSrcMac(f), ArpSrcIp(f)))
  }

  ghost predicate TrueCache(plan: Plan, c: Cache) {
    forall i :: 0 <= i < SLOTS && c[i].valid ==> Owns(plan, c[i].mac, c[i].ip)
  }

  // ---------------------------------------------------------------- one daemon

  lemma LookupStaysTrue(plan: Plan, c: Cache, ip: u32, now: u64)
    requires TrueCache(plan, c)
    ensures TrueCache(plan, Lookup(c, ip, now).cache)
  {}

  lemma LearnStaysTrue(plan: Plan, c: Cache, ip: u32, mac: Mac, now: u64)
    requires TrueCache(plan, c) && Owns(plan, mac, ip)
    ensures TrueCache(plan, Learn(c, ip, mac, now))
  {}

  lemma IpTxStaysTrue(plan: Plan, s: State, dst: u32, proto: byte, payload: seq<byte>, now: u64)
    requires TrueCache(plan, s.arp) && |payload| <= IP_MAX_PAYLOAD
    ensures TrueCache(plan, IpTx(s, dst, proto, payload, now).state.arp)
  {
    LookupStaysTrue(plan, s.arp, NextHop(s.config, dst), now);
  }

  lemma UdpTxStaysTrue(plan: Plan, s: State, dst: u32, srcPort: u16, dstPort: u16, data: seq<byte>, now: u64)
    requires TrueCache(plan, s.arp)
    ensures TrueCache(plan, UdpTx(s, dst, srcPort, dstPort, data, now).state.arp)
  {
    if |data| <= UDP_MAX_DATA { IpTxStaysTrue(plan, s, dst, PROTO_UDP, UdpPacket(srcPort, dstPort, data), now); }
  }

  lemma DispatchStaysTrue(plan: Plan, s: State, proto: byte, srcIp: u32, payload: seq<byte>, now: u64)
    requires TrueCache(plan, s.arp) && (proto == PROTO_UDP ==> UdpSized(payload))
    ensures TrueCache(plan, Dispatch(s, proto, srcIp, payload, now).state.arp)
  {
    if proto == PROTO_ICMP && |payload| >= 8 && payload[0] == ECHO_REQUEST {
      IpTxStaysTrue(plan, s, srcIp, PROTO_ICMP, EchoReply(payload), now);
    } else if proto == PROTO_UDP && |payload| >= 8 && Get16(payload, 4) > 8 {
      DhcpRxStaysTrue(plan, s, srcIp, payload[8..Get16(payload, 4)], now);
    }
  }

  lemma DhcpRxStaysTrue(plan: Plan, s: State, srcIp: u32, d: seq<byte>, now: u64)
    requires TrueCache(plan, s.arp)
    ensures TrueCache(plan, DhcpRx(s, srcIp, d, now).state.arp)
  {
    if Offers(s, d) {
      var server := OfferedBy(srcIp, d);
      var s1 := s.(server := server, phase := Request);
      UdpTxStaysTrue(plan, s1, IP_BCAST, Dhcp.CLIENT_PORT, SERVER_PORT, ClientMessage(s1.mac, s1.xid, DHCP_REQUEST, YourIp(d), server), now);
    }
  }

  /** Whatever a daemon does, as long as it hears only truthful frames its cache stays true. */
  lemma PerformStaysTrue(plan: Plan, s: State, op: Op)
    requires LegalOp(op) && TrueCache(plan, s.arp) && (op.Rx? ==> Truthful(plan, op.frame))
    ensures TrueCache(plan, Perform(s, op).state.arp)
  {
    match op
    case Rx(f, now, later) =>
      if HasType(f, ETHERTYPE_IP) && Accepts(s, f) {
        AcceptedIsDispatched(s, f, now, later);
        LearnStaysTrue(plan, s.arp, SrcIp(f), SrcMac(f), now);
        DispatchStaysTrue(plan, LearnSender(s, SrcIp(f), SrcMac(f), now), Proto(f), SrcIp(f), Payload(f), later);
      } else if HasType(f, ETHERTYPE_ARP) && |f| >= ARP_LEN {
        LearnStaysTrue(plan, s.arp, ArpSrcIp(f), ArpSrcMac(f), now);
      }
    case SendUdp(dst, sp, dp, data, now) => UdpTxStaysTrue(plan, s, dst, sp, dp, data, now);
    case SendPing(dst, id, seqNo, now) =>
      IpTxStaysTrue(plan, s.(ping := s.ping.(id := id, seqNo := seqNo, replied := false)), dst, PROTO_ICMP, PingMessage(id, seqNo), now);
    case Resolve(name, now) =>
      var s1 := s.(dns := DnsState(now % 0x1_0000, 0, 0));
      var q := BuildQuery(QUERY_MAX, s1.dns.txid, name);
      if q.Some? { UdpTxStaysTrue(plan, s1, s.config.dns, Dns.CLIENT_PORT, DNS_PORT, q.value, now); }
    case LookUp(ip, now) => LookupStaysTrue(plan, s.arp, ip, now);
    case StartDhcp(now) =>
      var s1 := Started(s, now);
      UdpTxStaysTrue(plan, s1, IP_BCAST, Dhcp.CLIENT_PORT, SERVER_PORT, ClientMessage(s1.mac, s1.xid, DHCP_DISCOVER, 0, 0), now);
    case _ =>
  }

  // ---------------------------------------------------------------- the link

  /** The daemons, and every frame sent so far; frames may be lost, delayed, repeated and overheard. */
  datatype Link = Link(hosts: seq<State>, sent: set<Frame>)

  /** A daemon does something, or a machine that runs other code sends a frame. */
  datatype Event = Act(host: nat, op: Op) | Outsider(frame: Frame)

  /** Daemons hear what was sent and take only addresses that are theirs; outsiders are truthful. */
  ghost predicate Allowed(plan: Plan, l: Link, e: Event) {
    match e
    case Act(h, op) =>
      && h < |l.hosts| && LegalOp(op) && (op.Rx? ==> op.frame in l.sent)
      && Owns(plan, l.hosts[h].mac, Perform(l.hosts[h], op).state.config.ip)
    case Outsider(f) => Truthful(plan, f)
  }

  ghost function After(plan: Plan, l: Link, e: Event): (r: Link)
    requires Allowed(plan, l, e)
  {
    match e
    case Act(h, op) =>
      var o := Perform(l.hosts[h], op);
      Link(l.hosts[h := o.state], l.sent + (set f | f in o.sent))
    case Outsider(f) => Link(l.hosts, l.sent + {f})
  }

  ghost predicate Safe(plan: Plan, l: Link) {
    && (forall h :: 0 <= h < |l.hosts| ==> TrueCache(plan, l.hosts[h].arp) && Owns(plan, l.hosts[h].mac, l.hosts[h].config.ip))
    && (forall f :: f in l.sent ==> Truthful(plan, f))
  }

  lemma StepIsSafe(plan: Plan, l: Link, e: Event)
    requires Safe(plan, l) && Allowed(plan, l, e)
    ensures Safe(plan, After(plan, l, e))
  {
    if e.Act? {
      var s := l.hosts[e.host];
      var o := Perform(s, e.op);
      PerformStaysTrue(plan, s, e.op);
      PerformSpeaks(s, e.op);
      PerformKeepsMac(s, e.op);
      forall f | f in o.sent ensures Truthful(plan, f) {
        var i :| 0 <= i < |o.sent| && o.sent[i] == f;
      }
    }
  }

  lemma PerformKeepsMac(s: State, op: Op)
    requires LegalOp(op)
    ensures Perform(s, op).state.mac == s.mac
  {
    if DhcpRuns.Ordinary(op) {
      DhcpRuns.StepLease(s, op);
      assert DhcpRuns.LeaseOf(Perform(s, op).state).mac == DhcpRuns.LeaseOf(s).mac;
    } else if op.StartDhcp? {
      var s1 := Started(s, op.now);
      var m := ClientMessage(s1.mac, s1.xid, DHCP_DISCOVER, 0, 0);
      DhcpRuns.SendingKeepsLease(s1, IP_BCAST, PROTO_UDP, UdpPacket(Dhcp.CLIENT_PORT, SERVER_PORT, m), op.now);
    }
  }

  /** A run of the link, from empty caches and no address configured. */
  ghost predicate LinkRun(plan: Plan, links: seq<Link>, events: seq<Event>) {
    && |links| == |events| + 1
    && links[0].sent == {}
    && (forall h :: 0 <= h < |links[0].hosts| ==> links[0].hosts[h] == InitialState(links[0].hosts[h].mac))
    && forall i :: 0 <= i < |events| ==> Allowed(plan, links[i], events[i]) && links[i + 1] == After(plan, links[i], events[i])
  }

  /** In every run every frame ever sent is truthful, and every cache entry names the owner. */
  lemma {:induction false} RunIsSafe(plan: Plan, links: seq<Link>, events: seq<Event>, n: nat)
    requires LinkRun(plan, links, events) && n < |links|
    ensures Safe(plan, links[n])
  {
    if n > 0 {
      RunIsSafe(plan, links, events, n - 1);
      StepIsSafe(plan, links[n - 1], events[n - 1]);
    }
  }

  /** So ip_tx never picks the wrong machine: its frame goes to the owner of the next hop, or to
      everyone. */
  lemma UnicastGoesToOwner(plan: Plan, links: seq<Link>, events: seq<Event>, n: nat, h: nat,
                           dst: u32, hop: u32, proto: byte, payload: seq<byte>, now: u64)
    requires LinkRun(plan, links, events) && n < |links| && h < |links[n].hosts| && |payload| <= IP_MAX_PAYLOAD
    requires IsHop(links[n].hosts[h].config, dst, hop)
    ensures var o := IpTx(links[n].hosts[h], dst, proto, payload, now);
            var to := o.sent[|o.sent| - 1][..6];
            hop == 0 || to == BCAST_MAC || (hop in plan && to == plan[hop])
  {
    RunIsSafe(plan, links, events, n);
    var s := links[n].hosts[h];
    if dst == IP_BCAST || hop == IP_BCAST {
      BroadcastLeaves(s, dst, hop, proto, payload, now);
    } else {
      UnicastLeaves(s, dst, hop, proto, payload, now, Lookup(s.arp, hop, now), IpTx(s, dst, proto, payload, now));
    }
  }
}
