/** The resolver's state over whole runs: what alone can answer an open query. */
module DnsRuns {
  import opened Bytes
  import opened Host
  import opened Arp
  import opened Ip
  import opened Icmp
  import opened Udp
  import opened DhcpOptions
  import opened Dhcp
  import opened Dns
  import opened Receive
  import HostRuns

  /** The operation brings a datagram from port 53 of some machine that is not for DHCP. */
  ghost predicate FromResolver(s: State, op: Op)
    requires LegalOp(op)
  {
    && op.Rx? && HasType(op.frame, 0x0800) && Accepts(s, op.frame) && Proto(op.frame) == 17
    && var p := Payload(op.frame);
       |p| >= 8 && Get16(p, 4) > 8 && Get16(p, 0) == 53 && Get16(p, 2) != 68
  }

  ghost function Message(s: State, op: Op): (m: seq<byte>)
    requires LegalOp(op) && FromResolver(s, op)
  {
    Payload(op.frame)[8..Get16(Payload(op.frame), 4)]
  }

  /** And its message has the open number and the response bit. */
  ghost predicate Answers(s: State, op: Op)
    requires LegalOp(op)
  {
    FromResolver(s, op)
    && var m := Message(s, op); |m| >= 12 && (m[0] as int) * 0x100 + m[1] == s.dns.txid && m[2] >= 0x80
  }

  lemma SendingKeepsDns(s: State, dst: u32, proto: byte, payload: seq<byte>, now: u64)
    requires |payload| <= IP_MAX_PAYLOAD
    ensures IpTx(s, dst, proto, payload, now).state.dns == s.dns
  {}

  lemma DhcpKeepsDns(s: State, srcIp: u32, d: seq<byte>, now: u64)
    ensures DhcpRx(s, srcIp, d, now).state.dns == s.dns
  {
    if Offers(s, d) {
      var server := OfferedBy(srcIp, d);
      var s1 := s.(server := server, phase := Request);
      var m := ClientMessage(s1.mac, s1.xid, DHCP_REQUEST, YourIp(d), server);
      SendingKeepsDns(s1, IP_BCAST, PROTO_UDP, UdpPacket(Dhcp.CLIENT_PORT, SERVER_PORT, m), now);
    }
  }

  lemma RxMovesDns(s: State, f: Frame, now: u64, later: u64)
    requires Deliverable(f)
    ensures var op := Rx(f, now, later);
            RxOnce(s, f, now, later).state.dns == if FromResolver(s, op) then DnsRx(s.dns, Message(s, op)) else s.dns
  {
    if HasType(f, ETHERTYPE_IP) && Accepts(s, f) {
      AcceptedIsDispatched(s, f, now, later);
      DispatchMovesDns(LearnSender(s, SrcIp(f), SrcMac(f), now), Proto(f), SrcIp(f), Payload(f), later);
    }
  }

  lemma DispatchMovesDns(s: State, proto: byte, srcIp: u32, p: seq<byte>, now: u64)
    requires proto == PROTO_UDP ==> UdpSized(p)
    ensures Dispatch(s, proto, srcIp, p, now).state.dns ==
            if proto == 17 && |p| >= 8 && Get16(p, 4) > 8 && Get16(p, 0) == 53 && Get16(p, 2) != 68
            then DnsRx(s.dns, p[8..Get16(p, 4)]) else s.dns
  {
    if proto == PROTO_ICMP && |p| >= 8 && p[0] == ECHO_REQUEST {
      SendingKeepsDns(s, srcIp, PROTO_ICMP, EchoReply(p), now);
    } else if proto == PROTO_UDP && |p| >= 8 && Get16(p, 4) > 8 {
      DhcpKeepsDns(s, srcIp, p[8..Get16(p, 4)], now);
    }
  }

  /** Apart from starting a query, an operation moves the resolver only by an answer to the open one;
      and then as dns_rx says. */
  lemma DnsMovesWhen(s: State, op: Op)
    requires LegalOp(op) && !op.Resolve?
    ensures Perform(s, op).state.dns == if Answers(s, op) then DnsRx(s.dns, Message(s, op)) else s.dns
    ensures Perform(s, op).state.dns.txid == s.dns.txid
    ensures Answers(s, op) ==> Perform(s, op).state.dns.done != 0
  {
    match op
    case Rx(f, now, later) => RxMovesDns(s, f, now, later);
    case SendUdp(dst, sp, dp, data, now) =>
      if |data| <= UDP_MAX_DATA { SendingKeepsDns(s, dst, PROTO_UDP, UdpPacket(sp, dp, data), now); }
    case SendPing(dst, id, seqNo, now) =>
      SendingKeepsDns(s.(ping := s.ping.(id := id, seqNo := seqNo, replied := false)), dst, PROTO_ICMP, PingMessage(id, seqNo), now);
    case StartDhcp(now) =>
      var s1 := Started(s, now);
      var m := ClientMessage(s1.mac, s1.xid, DHCP_DISCOVER, 0, 0);
      SendingKeepsDns(s1, IP_BCAST, PROTO_UDP, UdpPacket(Dhcp.CLIENT_PORT, SERVER_PORT, m), now);
    case _ =>
  }

  /** Step l moved the resolver only by an answer. */
  ghost predicate Moved(s: State, op: Op, t: State) {
    && LegalOp(op) && t.dns.txid == s.dns.txid
    && t.dns == if Answers(s, op) then DnsRx(s.dns, Message(s, op)) else s.dns
  }

  /** If the state changed over such steps, the last answer among them made it. */
  lemma {:induction false} LastAnswer(states: seq<State>, ops: seq<Op>, i: nat, j: nat) returns (k: nat)
    requires i <= j <= |ops| && |states| == |ops| + 1
    requires forall l :: i <= l < j ==> Moved(states[l], ops[l], states[l + 1])
    ensures states[j].dns.txid == states[i].dns.txid
    ensures states[j].dns != states[i].dns ==>
              && i <= k < j && LegalOp(ops[k]) && Answers(states[k], ops[k]) && states[k].dns.txid == states[i].dns.txid
              && states[j].dns == DnsRx(states[k].dns, Message(states[k], ops[k]))
    decreases j
  {
    k := i;
    if i < j {
      k := LastAnswer(states, ops, i, j - 1);
      assert Moved(states[j - 1], ops[j - 1], states[j]);
      if Answers(states[j - 1], ops[j - 1]) { k := j - 1; }
    }
  }

  /** In every run, between two queries: if the resolver's state has changed, some step in between
      brought an answer with the number that was open all the time; the last such step made the state. */
  lemma ChangedMeansAnswered(states: seq<State>, ops: seq<Op>, i: nat, j: nat) returns (k: nat)
    requires HostRuns.HostRun(states, ops) && i <= j <= |ops|
    requires forall l :: i <= l < j ==> !ops[l].Resolve?
    ensures states[j].dns.txid == states[i].dns.txid
    ensures states[j].dns != states[i].dns ==>
              && i <= k < j && Answers(states[k], ops[k]) && states[k].dns.txid == states[i].dns.txid
              && states[j].dns == DnsRx(states[k].dns, Message(states[k], ops[k]))
  {
    forall l | i <= l < j ensures Moved(states[l], ops[l], states[l + 1]) {
      DnsMovesWhen(states[l], ops[l]);
    }
    k := LastAnswer(states, ops, i, j);
  }
}
