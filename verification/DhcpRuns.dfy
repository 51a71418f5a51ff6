/** The DHCP client over whole runs: from dhcp_start on, through any frames and any other use of the daemon. */
module DhcpRuns {
  import opened Bytes
  import opened ArpCache
  import opened Host
  import opened Arp
  import opened Ip
  import opened Icmp
  import opened Udp
  import opened DhcpOptions
  import opened Dhcp
  import opened Dns
  import opened Receive

  /** The DHCP message a received frame brings to dhcp_rx, if it does. */
  function DhcpData(s: State, f: Frame): (r: Option<seq<byte>>)
    requires Deliverable(f)
  {
    if HasType(f, ETHERTYPE_IP) && Accepts(s, f) && Proto(f) == PROTO_UDP
       && |Payload(f)| >= 8 && Get16(Payload(f), 4) > 8 && Get16(Payload(f), 2) == Dhcp.CLIENT_PORT
    then Some(Payload(f)[8..Get16(Payload(f), 4)])
    else None
  }

  /** The DHCP message an operation brings. */
  function Brings(s: State, op: Op): (r: Option<seq<byte>>)
    requires LegalOp(op)
  {
    if op.Rx? then DhcpData(s, op.frame) else None
  }

  /** What an operation means to the client: the verdict of dhcp_rx on the message it brings. */
  datatype Verdict = Nothing | Offered(server: u32) | Leased(config: Config) | Refused

  function Judge(s: State, op: Op): (r: Verdict)
    requires LegalOp(op)
  {
    match Brings(s, op)
    case None => Nothing
    case Some(d) =>
      if Offers(s, d) then Offered(OfferedBy(SrcIp(op.frame), d))
      else if Acks(s, d) then Leased(Granted(d))
      else if Naks(s, d) then Refused
      else Nothing
  }

  /** The part of the state DHCP owns. */
  datatype Lease = Lease(phase: DhcpPhase, config: Config, server: u32, xid: u32, mac: Mac)

  function LeaseOf(s: State): (r: Lease) { Lease(s.phase, s.config, s.server, s.xid, s.mac) }

  /** The client automaton. */
  function Advance(l: Lease, v: Verdict): (r: Lease) {
    match v
    case Nothing => l
    case Offered(server) => l.(phase := Request, server := server)
    case Leased(c) => l.(phase := Bound, config := c)
    case Refused => l.(phase := Failed)
  }

  /** Where a verdict is possible at all. */
  predicate Possible(l: Lease, v: Verdict) {
    (v.Offered? ==> l.phase == Discover) && (v.Leased? ==> l.phase == Request)
  }

  // ---------------------------------------------------------------- one step

  lemma SendingKeepsLease(s: State, dst: u32, proto: byte, payload: seq<byte>, now: u64)
    requires |payload| <= IP_MAX_PAYLOAD
    ensures LeaseOf(IpTx(s, dst, proto, payload, now).state) == LeaseOf(s)
  {}

  lemma RxLease(s: State, f: Frame, now: u64, later: u64)
    requires Deliverable(f)
    ensures DhcpData(s, f).None? ==> LeaseOf(RxOnce(s, f, now, later).state) == LeaseOf(s)
    ensures DhcpData(s, f).Some? ==>
              RxOnce(s, f, now, later) ==
              DhcpRx(LearnSender(s, SrcIp(f), SrcMac(f), now), SrcIp(f), DhcpData(s, f).value, later)
  {
    if HasType(f, ETHERTYPE_IP) && Accepts(s, f) {
      AcceptedIsDispatched(s, f, now, later);
      DispatchLease(LearnSender(s, SrcIp(f), SrcMac(f), now), Proto(f), SrcIp(f), Payload(f), later);
    }
  }

  lemma DispatchLease(s: State, proto: byte, srcIp: u32, payload: seq<byte>, now: u64)
    requires proto == PROTO_UDP ==> UdpSized(payload)
    ensures proto == PROTO_UDP && |payload| >= 8 && Get16(payload, 4) > 8 && Get16(payload, 2) == Dhcp.CLIENT_PORT ==>
              Dispatch(s, proto, srcIp, payload, now) == DhcpRx(s, srcIp, payload[8..Get16(payload, 4)], now)
    ensures !(proto == PROTO_UDP && |payload| >= 8 && Get16(payload, 4) > 8 && Get16(payload, 2) == Dhcp.CLIENT_PORT) ==>
              LeaseOf(Dispatch(s, proto, srcIp, payload, now).state) == LeaseOf(s)
  {
    if proto == PROTO_ICMP && |payload| >= 8 && payload[0] == ECHO_REQUEST {
      SendingKeepsLease(s, srcIp, PROTO_ICMP, EchoReply(payload), now);
    }
  }

  lemma DhcpRxLease(s: State, srcIp: u32, d: seq<byte>, now: u64)
    ensures LeaseOf(DhcpRx(s, srcIp, d, now).state) ==
            Advance(LeaseOf(s), if Offers(s, d) then Offered(OfferedBy(srcIp, d))
                                else if Acks(s, d) then Leased(Granted(d))
                                else if Naks(s, d) then Refused
                                else Nothing)
  {
    if Offers(s, d) {
      var server := OfferedBy(srcIp, d);
      var s1 := s.(server := server, phase := Request);
      var m := ClientMessage(s1.mac, s1.xid, DHCP_REQUEST, YourIp(d), server);
      SendingKeepsLease(s1, IP_BCAST, PROTO_UDP, UdpPacket(Dhcp.CLIENT_PORT, SERVER_PORT, m), now);
    }
  }

  predicate Ordinary(op: Op) { LegalOp(op) && !op.StartDhcp? && !op.Configure? }

  /** Whatever the daemon does, its lease moves as the client automaton says. */
  lemma StepLease(s: State, op: Op)
    requires Ordinary(op)
    ensures LeaseOf(Perform(s, op).state) == Advance(LeaseOf(s), Judge(s, op)) && Possible(LeaseOf(s), Judge(s, op))
  {
    match op
    case Rx(f, now, later) =>
      RxLease(s, f, now, later);
      if DhcpData(s, f).Some? {
        DhcpRxLease(LearnSender(s, SrcIp(f), SrcMac(f), now), SrcIp(f), DhcpData(s, f).value, later);
      }
    case SendUdp(dst, sp, dp, data, now) =>
      if |data| <= UDP_MAX_DATA { SendingKeepsLease(s, dst, PROTO_UDP, UdpPacket(sp, dp, data), now); }
    case SendPing(dst, id, seqNo, now) =>
      SendingKeepsLease(s.(ping := s.ping.(id := id, seqNo := seqNo, replied := false)), dst, PROTO_ICMP, PingMessage(id, seqNo), now);
    case Resolve(name, now) => ResolveKeepsLease(s, name, now);
    case _ =>
  }

  lemma ResolveKeepsLease(s: State, name: seq<byte>, now: u64)
    ensures LeaseOf(DnsQuery(s, name, now).state) == LeaseOf(s)
  {
    var s1 := s.(dns := DnsState(now % 0x1_0000, 0, 0));
    var q := BuildQuery(QUERY_MAX, s1.dns.txid, name);
    if q.Some? && |q.value| <= UDP_MAX_DATA {
      SendingKeepsLease(s1, s.config.dns, PROTO_UDP, UdpPacket(Dns.CLIENT_PORT, DNS_PORT, q.value), now);
    }
  }

  // ---------------------------------------------------------------- runs of the automaton

  const NO_CONFIG := Config(0, 0, 0, 0)

  function Rank(p: DhcpPhase): (r: nat) {
    match p
    case Idle => 0
    case Discover => 1
    case Offer => 1
    case Request => 2
    case Bound => 3
    case Failed => 4
  }

  /** A run: the lease before and after each of the verdicts. */
  ghost predicate LeaseRun(ls: seq<Lease>, vs: seq<Verdict>) {
    && |ls| == |vs| + 1
    && ls[0].phase == Discover && ls[0].config == NO_CONFIG
    && forall i :: 0 <= i < |vs| ==> Possible(ls[i], vs[i]) && ls[i + 1] == Advance(ls[i], vs[i])
  }

  /** The session only moves forward, and its number never changes. */
  lemma {:induction false} RankNeverDecreases(ls: seq<Lease>, vs: seq<Verdict>, i: nat, j: nat)
    requires LeaseRun(ls, vs) && i <= j < |ls|
    ensures Rank(ls[i].phase) <= Rank(ls[j].phase) && ls[i].xid == ls[j].xid
    ensures ls[j].phase == Discover || ls[j].phase == Request || ls[j].phase == Bound || ls[j].phase == Failed
    decreases j
  {
    if j > 0 {
      RankNeverDecreases(ls, vs, if i < j then i else j - 1, j - 1);
      assert Possible(ls[j - 1], vs[j - 1]) && ls[j] == Advance(ls[j - 1], vs[j - 1]);
    }
  }

  /** Only one OFFER is ever accepted. */
  lemma OneOffer(ls: seq<Lease>, vs: seq<Verdict>, i: nat, j: nat)
    requires LeaseRun(ls, vs) && i < |vs| && j < |vs| && vs[i].Offered? && vs[j].Offered?
    ensures i == j
  {
    assert Possible(ls[i], vs[i]) && Possible(ls[j], vs[j]);
    assert ls[i + 1] == Advance(ls[i], vs[i]) && ls[j + 1] == Advance(ls[j], vs[j]);
    if i < j { RankNeverDecreases(ls, vs, i + 1, j); }
    if j < i { RankNeverDecreases(ls, vs, j + 1, i); }
  }

  /** What the lease at n rests on: the OFFER accepted before, and the ACK accepted after that. */
  ghost predicate Founded(ls: seq<Lease>, vs: seq<Verdict>, n: nat, offer: int, ack: int)
    requires LeaseRun(ls, vs) && n < |ls|
  {
    && (ls[n].phase == Discover || ls[n].phase == Request ==> ls[n].config == NO_CONFIG)
    && (ls[n].phase == Request || ls[n].phase == Bound ==> 0 <= offer < n && vs[offer] == Offered(ls[n].server))
    && (ls[n].phase == Bound ==> offer < ack < n && vs[ack] == Leased(ls[n].config))
  }

  lemma {:induction false} EveryLeaseIsFounded(ls: seq<Lease>, vs: seq<Verdict>, n: nat) returns (offer: int, ack: int)
    requires LeaseRun(ls, vs) && n < |ls|
    ensures Founded(ls, vs, n, offer, ack)
    decreases n
  {
    if n == 0 {
      offer, ack := -1, -1;
    } else {
      offer, ack := EveryLeaseIsFounded(ls, vs, n - 1);
      assert Possible(ls[n - 1], vs[n - 1]) && ls[n] == Advance(ls[n - 1], vs[n - 1]);
      if vs[n - 1].Offered? { offer := n - 1; }
      if vs[n - 1].Leased? { ack := n - 1; }
    }
  }

  // ---------------------------------------------------------------- runs of the daemon

  ghost predicate OrdinaryRun(ops: seq<Op>) {
    forall i :: 0 <= i < |ops| ==> Ordinary(ops[i])
  }

  /** The states of a run, and what each operation means to DHCP. */
  ghost predicate Trace(states: seq<State>, ops: seq<Op>) {
    && OrdinaryRun(ops) && |states| == |ops| + 1
    && states[0].phase == Discover && states[0].config == NO_CONFIG
    && forall i :: 0 <= i < |ops| ==> states[i + 1] == Perform(states[i], ops[i]).state
  }

  ghost function Leases(states: seq<State>): (r: seq<Lease>) {
    seq(|states|, i requires 0 <= i < |states| => LeaseOf(states[i]))
  }

  ghost function Verdicts(states: seq<State>, ops: seq<Op>): (r: seq<Verdict>)
    requires OrdinaryRun(ops) && |states| >= |ops|
  {
    seq(|ops|, i requires 0 <= i < |ops| => Judge(states[i], ops[i]))
  }

  /** dhcp_start begins a session: no address, state DISCOVER, and the clock's session number. */
  lemma StartBegins(s: State, now: u64)
    ensures var t := DhcpStart(s, now).state; t.phase == Discover && t.config == NO_CONFIG && t.xid == SessionId(now)
  {
    var s1 := Started(s, now);
    var m := ClientMessage(s1.mac, s1.xid, DHCP_DISCOVER, 0, 0);
    SendingKeepsLease(s1, IP_BCAST, PROTO_UDP, UdpPacket(Dhcp.CLIENT_PORT, SERVER_PORT, m), now);
    assert LeaseOf(DhcpStart(s, now).state) == LeaseOf(s1);
  }

  /** Every run of the daemon is a run of the client automaton. */
  lemma TraceIsLeaseRun(states: seq<State>, ops: seq<Op>)
    requires Trace(states, ops)
    ensures LeaseRun(Leases(states), Verdicts(states, ops))
  {
    var ls, vs := Leases(states), Verdicts(states, ops);
    forall i | 0 <= i < |vs| ensures Possible(ls[i], vs[i]) && ls[i + 1] == Advance(ls[i], vs[i]) {
      StepLease(states[i], ops[i]);
      assert states[i + 1] == Perform(states[i], ops[i]).state;
    }
  }

  /** Operation i is a received message of the given kind of this session. */
  ghost predicate Hears(states: seq<State>, ops: seq<Op>, i: int, kind: byte)
    requires Trace(states, ops)
  {
    && 0 <= i < |ops| && Brings(states[i], ops[i]).Some?
    && InSession(states[0].xid, Brings(states[i], ops[i]).value)
    && GetMsgType(Options(Brings(states[i], ops[i]).value)) == kind
  }

  /** In every run from dhcp_start on: no address before BOUND; BOUND only after an OFFER of the
      session and, later, an ACK of the session, whose values the configuration then holds. */
  lemma BoundMeansLeased(states: seq<State>, ops: seq<Op>, n: nat) returns (offer: int, ack: int)
    requires Trace(states, ops) && n < |states|
    ensures states[n].xid == states[0].xid
    ensures states[n].phase == Discover || states[n].phase == Request ==> states[n].config == NO_CONFIG
    ensures states[n].phase == Request || states[n].phase == Bound ==>
              offer < n && Hears(states, ops, offer, DHCP_OFFER)
              && states[n].server == OfferedBy(SrcIp(ops[offer].frame), Brings(states[offer], ops[offer]).value)
    ensures states[n].phase == Bound ==>
              offer < ack < n && Hears(states, ops, ack, DHCP_ACK)
              && states[n].config == Granted(Brings(states[ack], ops[ack]).value)
  {
    var ls, vs := Leases(states), Verdicts(states, ops);
    TraceIsLeaseRun(states, ops);
    offer, ack := EveryLeaseIsFounded(ls, vs, n);
    RankNeverDecreases(ls, vs, 0, n);
    assert ls[n] == LeaseOf(states[n]) && ls[0] == LeaseOf(states[0]);
    if 0 <= offer < n { JudgedAt(states, ops, offer); }
    if 0 <= ack < n { JudgedAt(states, ops, ack); }
  }

  lemma JudgedAt(states: seq<State>, ops: seq<Op>, i: nat)
    requires Trace(states, ops) && i < |ops|
    ensures Verdicts(states, ops)[i].Offered? ==>
              Hears(states, ops, i, DHCP_OFFER)
              && Verdicts(states, ops)[i].server == OfferedBy(SrcIp(ops[i].frame), Brings(states[i], ops[i]).value)
    ensures Verdicts(states, ops)[i].Leased? ==>
              Hears(states, ops, i, DHCP_ACK)
              && Verdicts(states, ops)[i].config == Granted(Brings(states[i], ops[i]).value)
  {
    var ls, vs := Leases(states), Verdicts(states, ops);
    TraceIsLeaseRun(states, ops);
    RankNeverDecreases(ls, vs, 0, i);
    assert ls[i] == LeaseOf(states[i]) && ls[0] == LeaseOf(states[0]) && vs[i] == Judge(states[i], ops[i]);
  }
}
