/** One daemon over any run: the shape its tables keep, and its ARP cache as a log of what it heard. */
module HostRuns {
  import opened Bytes
  import opened ArpCache
  import opened Host
  import opened Arp
  import opened Ip
  import opened Icmp
  import opened Udp
  import opened Dhcp
  import opened Dns
  import opened Receive

  /** States before and after each of the operations. */
  ghost predicate Recorded(states: seq<State>, ops: seq<Op>) {
    |states| == |ops| + 1 && forall i :: 0 <= i < |ops| ==> LegalOp(ops[i])
  }

  /** A run of a daemon, from its zeroed state. */
  ghost predicate HostRun(states: seq<State>, ops: seq<Op>) {
    && Recorded(states, ops) && states[0] == InitialState(states[0].mac)
    && forall i :: 0 <= i < |ops| ==> states[i + 1] == Perform(states[i], ops[i]).state
  }

  // ---------------------------------------------------------------- the mailboxes

  /** Sixteen slots, distinct ports, and no waiting datagram that belongs to DHCP or DNS. */
  ghost predicate MailboxesSound(binds: seq<UdpBind>) {
    && Table(binds)
    && forall i :: 0 <= i < |binds| && binds[i].used && binds[i].data != [] ==>
         binds[i].port != 68 && binds[i].srcPort != 53
  }

  lemma DispatchKeepsMailboxes(s: State, proto: byte, srcIp: u32, payload: seq<byte>, now: u64)
    requires MailboxesSound(s.udp) && (proto == PROTO_UDP ==> UdpSized(payload))
    ensures MailboxesSound(Dispatch(s, proto, srcIp, payload, now).state.udp)
  {
    if proto == PROTO_UDP && |payload| >= 8 && Get16(payload, 4) > 8 && Get16(payload, 2) != Dhcp.CLIENT_PORT
       && Get16(payload, 0) != DNS_PORT {
      DeliverKeepsMailboxes(s.udp, Get16(payload, 2), payload[8..Get16(payload, 4)], srcIp, Get16(payload, 0));
    } else {
      assert Dispatch(s, proto, srcIp, payload, now).state.udp == s.udp;
    }
  }

  lemma DeliverKeepsMailboxes(binds: seq<UdpBind>, port: u16, data: seq<byte>, srcIp: u32, srcPort: u16)
    requires MailboxesSound(binds) && port != Dhcp.CLIENT_PORT && srcPort != DNS_PORT
    ensures MailboxesSound(Deliver(binds, port, data, srcIp, srcPort))
  {
    var c := Deliver(binds, port, data, srcIp, srcPort);
    assert forall i :: 0 <= i < |binds| ==> c[i].used == binds[i].used && c[i].port == binds[i].port;
  }

  lemma BindKeepsMailboxes(binds: seq<UdpBind>, port: u16)
    requires MailboxesSound(binds)
    ensures var b := BindPort(binds, port); b.Some? ==> MailboxesSound(b.value)
  {
    BindLaw(binds, port);
  }

  lemma RxKeepsMailboxes(s: State, f: Frame, now: u64, later: u64)
    requires Deliverable(f) && MailboxesSound(s.udp)
    ensures MailboxesSound(RxOnce(s, f, now, later).state.udp)
  {
    if HasType(f, ETHERTYPE_IP) && Accepts(s, f) {
      AcceptedIsDispatched(s, f, now, later);
      DispatchKeepsMailboxes(LearnSender(s, SrcIp(f), SrcMac(f), now), Proto(f), SrcIp(f), Payload(f), later);
    } else {
      assert RxOnce(s, f, now, later).state.udp == s.udp;
    }
  }

  /** Only receiving and the socket calls touch the mailboxes. */
  lemma OthersKeepMailboxes(s: State, op: Op)
    requires LegalOp(op) && !op.Rx? && !op.Bind? && !op.Unbind? && !op.Receive? && !op.StartDhcp?
    ensures Perform(s, op).state.udp == s.udp
  {}

  lemma StartKeepsMailboxes(s: State, now: u64)
    requires MailboxesSound(s.udp)
    ensures MailboxesSound(DhcpStart(s, now).state.udp)
  {
    BindKeepsMailboxes(s.udp, Dhcp.CLIENT_PORT);
    assert DhcpStart(s, now).state.udp == Started(s, now).udp;
  }

  lemma PerformKeepsMailboxes(s: State, op: Op)
    requires LegalOp(op) && MailboxesSound(s.udp)
    ensures MailboxesSound(Perform(s, op).state.udp)
  {
    match op
    case Rx(f, now, later) => RxKeepsMailboxes(s, f, now, later);
    case Bind(port) => BindKeepsMailboxes(s.udp, port);
    case Unbind(port) => UnbindLaw(s.udp, port);
    case Receive(port, max) => RecvLaw(s.udp, port, max);
    case StartDhcp(now) => StartKeepsMailboxes(s, now);
    case _ => OthersKeepMailboxes(s, op);
  }

  /** In every state of every run. */
  lemma {:induction false} RunKeepsMailboxes(states: seq<State>, ops: seq<Op>, n: nat)
    requires HostRun(states, ops) && n < |states|
    ensures MailboxesSound(states[n].udp)
  {
    if n > 0 {
      RunKeepsMailboxes(states, ops, n - 1);
      PerformKeepsMailboxes(states[n - 1], ops[n - 1]);
    }
  }

  // ---------------------------------------------------------------- what the cache hears

  /** The pair of addresses an operation teaches. */
  function Heard(s: State, op: Op): (r: Option<Event>)
    requires LegalOp(op)
  {
    if !op.Rx? then None
    else if HasType(op.frame, ETHERTYPE_IP) then
      if Accepts(s, op.frame) then Some(Learned(SrcIp(op.frame), SrcMac(op.frame), op.now)) else None
    else if HasType(op.frame, ETHERTYPE_ARP) && |op.frame| >= ARP_LEN && ArpSrcIp(op.frame) != 0 then
      Some(Learned(ArpSrcIp(op.frame), ArpSrcMac(op.frame), op.now))
    else None
  }

  /** The lookup of an ip_tx, if it makes one. */
  function Asked(c: Config, dst: u32, now: u64): (r: seq<Event>) {
    if NextHop(c, dst) == IP_BCAST || dst == IP_BCAST then [] else [LookedUp(NextHop(c, dst), now)]
  }

  predicate Echoes(f: Frame)
    requires FrameOk(f) && |f| >= ETH_IP && HeaderLen(f) < TotalLen(f)
  {
    Proto(f) == PROTO_ICMP && |Payload(f)| >= 8 && Payload(f)[0] == ECHO_REQUEST
  }

  /** The lookups of an operation. */
  function Lookups(s: State, op: Op): (r: seq<Event>)
    requires LegalOp(op)
  {
    match op
    case Rx(f, now, later) =>
      if HasType(f, ETHERTYPE_IP) && Accepts(s, f) && Echoes(f) then Asked(s.config, SrcIp(f), later) else []
    case SendUdp(dst, sp, dp, data, now) => if |data| <= UDP_MAX_DATA then Asked(s.config, dst, now) else []
    case SendPing(dst, id, seqNo, now) => Asked(s.config, dst, now)
    case Resolve(name, now) =>
      if s.config.dns == 0 || s.config.ip == 0 then []
      else
        var q := BuildQuery(QUERY_MAX, now % 0x1_0000, name);
        if q.Some? && |q.value| <= UDP_MAX_DATA then Asked(s.config, s.config.dns, now) else []
    case LookUp(ip, now) => [LookedUp(ip, now)]
    case Flush(now) => [Flushed(now)]
    case _ => []
  }

  function OpLog(s: State, op: Op): (r: seq<Event>)
    requires LegalOp(op)
  {
    TurnLog(Turn(Heard(s, op), Lookups(s, op)))
  }

  /** Several events in turn. */
  function ApplyAll(c: Cache, evs: seq<Event>): (r: Cache) {
    if evs == [] then c else Apply(ApplyAll(c, evs[..|evs| - 1]), evs[|evs| - 1])
  }

  lemma {:induction false} ReplayOfSum(a: seq<Event>, b: seq<Event>)
    ensures Replay(a + b) == ApplyAll(Replay(a), b)
  {
    if b == [] {
      assert a + b == a;
    } else {
      ReplayOfSum(a, b[..|b| - 1]);
      assert (a + b)[..|a + b| - 1] == a + b[..|b| - 1];
    }
  }

  lemma ApplyShort(c: Cache, e: Event, e': Event)
    ensures ApplyAll(c, [e]) == Apply(c, e) && ApplyAll(c, [e, e']) == Apply(Apply(c, e), e')
  {
    assert [e][..0] == [] && [e, e'][..1] == [e];
  }

  lemma IpTxAsks(s: State, dst: u32, proto: byte, payload: seq<byte>, now: u64)
    requires |payload| <= IP_MAX_PAYLOAD
    ensures IpTx(s, dst, proto, payload, now).state.arp == ApplyAll(s.arp, Asked(s.config, dst, now))
  {
    var e := LookedUp(NextHop(s.config, dst), now);
    ApplyShort(s.arp, e, e);
  }

  lemma DispatchAsks(s: State, f: Frame, later: u64)
    requires FrameOk(f) && |f| >= ETH_IP && HeaderLen(f) < TotalLen(f)
    ensures Dispatch(s, Proto(f), SrcIp(f), Payload(f), later).state.arp ==
            ApplyAll(s.arp, if Echoes(f) then Asked(s.config, SrcIp(f), later) else [])
  {
    if Echoes(f) { IpTxAsks(s, SrcIp(f), PROTO_ICMP, EchoReply(Payload(f)), later); }
  }

  lemma RxIsLogged(s: State, f: Frame, now: u64, later: u64)
    requires Deliverable(f)
    ensures RxOnce(s, f, now, later).state.arp == ApplyAll(s.arp, OpLog(s, Rx(f, now, later)))
  {
    var h := Heard(s, Rx(f, now, later));
    if h.Some? {
      ApplyShort(s.arp, h.value, h.value);
      if HasType(f, ETHERTYPE_IP) {
        AcceptedIsDispatched(s, f, now, later);
        var s1 := LearnSender(s, SrcIp(f), SrcMac(f), now);
        DispatchAsks(s1, f, later);
        var e := LookedUp(NextHop(s.config, SrcIp(f)), later);
        ApplyShort(s1.arp, e, e);
        ApplyShort(s.arp, h.value, e);
      }
    }
  }

  /** What an operation does to the cache is what its log says. */
  lemma PerformIsLogged(s: State, op: Op)
    requires LegalOp(op)
    ensures Perform(s, op).state.arp == ApplyAll(s.arp, OpLog(s, op))
  {
    if op.Rx? {
      RxIsLogged(s, op.frame, op.now, op.later);
    } else {
      OthersAreLogged(s, op);
      assert [] + Lookups(s, op) == Lookups(s, op);
    }
  }

  lemma OthersAreLogged(s: State, op: Op)
    requires !op.Rx?
    ensures Perform(s, op).state.arp == ApplyAll(s.arp, Lookups(s, op))
  {
    match op
    case SendUdp(dst, sp, dp, data, now) =>
      if |data| <= UDP_MAX_DATA { IpTxAsks(s, dst, PROTO_UDP, UdpPacket(sp, dp, data), now); }
    case SendPing(dst, id, seqNo, now) =>
      IpTxAsks(s.(ping := s.ping.(id := id, seqNo := seqNo, replied := false)), dst, PROTO_ICMP, PingMessage(id, seqNo), now);
    case Resolve(name, now) => ResolveIsLogged(s, name, now);
    case LookUp(ip, now) => ApplyShort(s.arp, LookedUp(ip, now), LookedUp(ip, now));
    case Flush(now) => ApplyShort(s.arp, Flushed(now), Flushed(now));
    case _ =>
  }

  lemma ResolveIsLogged(s: State, name: seq<byte>, now: u64)
    ensures DnsQuery(s, name, now).state.arp == ApplyAll(s.arp, Lookups(s, Resolve(name, now)))
  {
    var s1 := s.(dns := DnsState(now % 0x1_0000, 0, 0));
    var q := BuildQuery(QUERY_MAX, s1.dns.txid, name);
    if q.Some? && |q.value| <= UDP_MAX_DATA {
      IpTxAsks(s1, s.config.dns, PROTO_UDP, UdpPacket(Dns.CLIENT_PORT, DNS_PORT, q.value), now);
    }
  }

  /** What one operation heard and asked. */
  datatype Turn = Turn(heard: Option<Event>, asked: seq<Event>)

  function TurnLog(t: Turn): (r: seq<Event>) { (match t.heard case None => [] case Some(e) => [e]) + t.asked }

  function LogOf(turns: seq<Turn>): (r: seq<Event>) {
    if turns == [] then [] else LogOf(turns[..|turns| - 1]) + TurnLog(turns[|turns| - 1])
  }

  function Turns(states: seq<State>, ops: seq<Op>, n: nat): (ts: seq<Turn>)
    requires Recorded(states, ops) && n <= |ops|
    ensures |ts| == n && (forall i :: 0 <= i < n ==> ts[i] == Turn(Heard(states[i], ops[i]), Lookups(states[i], ops[i])))
  {
    seq(n, i requires 0 <= i < n => Turn(Heard(states[i], ops[i]), Lookups(states[i], ops[i])))
  }

  /** The log of the first n operations. */
  function Log(states: seq<State>, ops: seq<Op>, n: nat): (r: seq<Event>)
    requires Recorded(states, ops) && n <= |ops|
  {
    LogOf(Turns(states, ops, n))
  }

  lemma LogGrows(states: seq<State>, ops: seq<Op>, n: nat)
    requires Recorded(states, ops) && 0 < n <= |ops|
    ensures Log(states, ops, n) == Log(states, ops, n - 1) + OpLog(states[n - 1], ops[n - 1])
  {
    assert Turns(states, ops, n)[..n - 1] == Turns(states, ops, n - 1);
  }

  /** In every run the cache is what its log makes of an empty one. */
  lemma {:induction false} CacheIsReplay(states: seq<State>, ops: seq<Op>, n: nat)
    requires HostRun(states, ops) && n <= |ops|
    ensures states[n].arp == Replay(Log(states, ops, n)) && Unique(states[n].arp)
  {
    if n > 0 {
      CacheIsReplay(states, ops, n - 1);
      LogGrows(states, ops, n);
      PerformIsLogged(states[n - 1], ops[n - 1]);
      ReplayOfSum(Log(states, ops, n - 1), OpLog(states[n - 1], ops[n - 1]));
    }
    ReplayFaithful(Log(states, ops, n));
  }

  // ---------------------------------------------------------------- time

  /** The clock readings of an operation lie in an interval. */
  predicate During(op: Op, from: u64, to: u64) {
    match op
    case Rx(_, now, later) => from <= now <= later <= to
    case SendUdp(_, _, _, _, now) => from <= now <= to
    case SendPing(_, _, _, now) => from <= now <= to
    case Resolve(_, now) => from <= now <= to
    case LookUp(_, now) => from <= now <= to
    case Flush(now) => from <= now <= to
    case _ => from <= to
  }

  /** The clock never runs backwards: operation i happens between ticks i and i + 1. */
  ghost predicate Timely(ops: seq<Op>, ticks: seq<u64>) {
    |ticks| == |ops| + 1 && forall i :: 0 <= i < |ops| ==> During(ops[i], ticks[i], ticks[i + 1])
  }

  lemma {:induction false} LogInOrder(states: seq<State>, ops: seq<Op>, ticks: seq<u64>, n: nat)
    requires Recorded(states, ops) && Timely(ops, ticks) && n <= |ops|
    ensures InOrder(Log(states, ops, n), ticks[n])
  {
    if n > 0 {
      LogInOrder(states, ops, ticks, n - 1);
      LogGrows(states, ops, n);
      assert During(ops[n - 1], ticks[n - 1], ticks[n]);
      OpLogDuring(states[n - 1], ops[n - 1], ticks[n - 1], ticks[n]);
    }
  }

  lemma OpLogDuring(s: State, op: Op, from: u64, to: u64)
    requires LegalOp(op) && During(op, from, to)
    ensures InOrder(OpLog(s, op), to) && from <= to && forall i :: 0 <= i < |OpLog(s, op)| ==> from <= OpLog(s, op)[i].t
  {}

  // ---------------------------------------------------------------- resolving, at last

  predicate Tells(t: Turn, ip: u32) { t.heard.Some? && t.heard.value.Learned? && t.heard.value.ip == ip }

  /** Turn i is the last to tell anything of ip. */
  ghost predicate LastHeard(turns: seq<Turn>, ip: u32, i: nat) {
    i < |turns| && Tells(turns[i], ip) && forall j :: i < j < |turns| ==> !Tells(turns[j], ip)
  }

  /** Only what is heard teaches. */
  ghost predicate OnlyHeardTeaches(t: Turn) {
    (t.heard.Some? ==> t.heard.value.Learned?) && forall i :: 0 <= i < |t.asked| ==> !t.asked[i].Learned?
  }

  lemma LastHeardExtends(before: seq<Turn>, t: Turn, ip: u32, i: nat)
    requires LastHeard(before, ip, i) && !Tells(t, ip)
    ensures LastHeard(before + [t], ip, i)
  {
    forall j | i < j < |before| + 1 ensures !Tells((before + [t])[j], ip) {
      assert j < |before| ==> (before + [t])[j] == before[j];
    }
  }

  lemma {:induction false} LogOrigin(turns: seq<Turn>, ip: u32) returns (i: nat)
    requires (forall i :: 0 <= i < |turns| ==> OnlyHeardTeaches(turns[i])) && LastLearn(LogOf(turns), ip) >= 0
    ensures LastHeard(turns, ip, i)
    ensures turns[i].heard.value == LogOf(turns)[LastLearn(LogOf(turns), ip)]
  {
    var before, t := turns[..|turns| - 1], turns[|turns| - 1];
    LastLearnStep(LogOf(before), t, ip);
    if Tells(t, ip) {
      i := |before|;
    } else {
      i := LogOrigin(before, ip);
      LastHeardExtends(before, t, ip, i);
      assert turns == before + [t];
    }
  }

  lemma LastLearnStep(before: seq<Event>, t: Turn, ip: u32)
    requires OnlyHeardTeaches(t)
    ensures var log, k := before + TurnLog(t), LastLearn(before + TurnLog(t), ip);
            if Tells(t, ip) then k == |before| && log[k] == t.heard.value
            else k == LastLearn(before, ip) && (k >= 0 ==> log[k] == before[k])
  {
    var log := before + TurnLog(t);
    if Tells(t, ip) {
      assert log[|before|] == t.heard.value;
    } else {
      LastLearnOfPrefix(before, TurnLog(t), ip);
    }
  }

  lemma OnlyHeardTeachesThroughout(states: seq<State>, ops: seq<Op>, n: nat)
    requires Recorded(states, ops) && n <= |ops|
    ensures forall i :: 0 <= i < n ==> OnlyHeardTeaches(Turns(states, ops, n)[i])
  {
    forall i | 0 <= i < n ensures OnlyHeardTeaches(Turns(states, ops, n)[i]) { LookupsTeachNothing(states[i], ops[i]); }
  }

  lemma LookupsTeachNothing(s: State, op: Op)
    requires LegalOp(op)
    ensures OnlyHeardTeaches(Turn(Heard(s, op), Lookups(s, op)))
  {}

  lemma LastLearnOfPrefix(a: seq<Event>, b: seq<Event>, ip: u32)
    requires LastLearn(a + b, ip) < |a|
    ensures LastLearn(a, ip) == LastLearn(a + b, ip)
  {
    var k, l := LastLearn(a + b, ip), LastLearn(a, ip);
    assert k >= 0 ==> a[k] == (a + b)[k];
    assert l >= 0 ==> a[l] == (a + b)[l];
  }

  /** In every run, an address that resolves resolves to what the daemon heard last of it, from a
      frame received less than 30 s ago. */
  lemma ResolvesToLastHeard(states: seq<State>, ops: seq<Op>, ticks: seq<u64>, n: nat, ip: u32, now: u64) returns (i: nat)
    requires HostRun(states, ops) && Timely(ops, ticks) && n <= |ops| && ticks[n] <= now
    requires Lookup(states[n].arp, ip, now).mac.Some?
    ensures LastHeard(Turns(states, ops, n), ip, i)
    ensures var e := Heard(states[i], ops[i]).value;
            e.mac == Lookup(states[n].arp, ip, now).mac.value && now - e.t < 30000
  {
    CacheIsReplay(states, ops, n);
    LogInOrder(states, ops, ticks, n);
    LookupIsSound(Log(states, ops, n), ip, now);
    OnlyHeardTeachesThroughout(states, ops, n);
    i := LogOrigin(Turns(states, ops, n), ip);
  }

  /** And in every run, whatever the clock does, an address heard less than 30 s ago resolves to
      what was heard if at most fifteen others were heard at that time or later, and does not
      resolve if sixteen were heard later. */
  lemma ResolvesWhatWasHeard(states: seq<State>, ops: seq<Op>, n: nat, ip: u32, k: int, now: u64)
    requires HostRun(states, ops) && n <= |ops| && Watching(Log(states, ops, n), ip, k, now)
    ensures var log, r := Log(states, ops, n), Lookup(states[n].arp, ip, now).mac;
            && (r == Some(log[k].mac) || r == None)
            && (|Rivals(log, ip, log[k].t)| <= 15 ==> r == Some(log[k].mac))
            && (|Later(log, log[k].t)| >= 16 ==> r == None)
  {
    CacheIsReplay(states, ops, n);
    LookupBounds(Log(states, ops, n), ip, k, now);
  }

  /** The exact condition: it was still cached when its millisecond ended, and those heard later,
      with those that stood behind it then, are at most fifteen. */
  lemma ResolvesExactly(states: seq<State>, ops: seq<Op>, n: nat, ip: u32, k: int, now: u64)
    requires HostRun(states, ops) && n <= |ops| && Watching(Log(states, ops, n), ip, k, now)
    ensures var log := Log(states, ops, n);
            var t := log[k].t;
            var c0 := Replay(log[..Until(log, t)]);
            Lookup(states[n].arp, ip, now).mac ==
            if ip in Ips(c0) && |Later(log, t) + Behind(c0, ip)| <= 15 then Some(log[k].mac) else None
  {
    CacheIsReplay(states, ops, n);
    LookupIsExact(Log(states, ops, n), ip, k, now);
  }

  /** If nothing else was heard in the same millisecond: at most fifteen others were heard since. */
  lemma ResolvesWhenAlone(states: seq<State>, ops: seq<Op>, n: nat, ip: u32, k: int, now: u64)
    requires HostRun(states, ops) && n <= |ops| && Watching(Log(states, ops, n), ip, k, now)
    requires Alone(Log(states, ops, n), k)
    ensures var log := Log(states, ops, n);
            Lookup(states[n].arp, ip, now).mac == (if |Since(log, k)| <= 15 then Some(log[k].mac) else None)
  {
    CacheIsReplay(states, ops, n);
    LookupIsComplete(Log(states, ops, n), ip, k, now);
  }
}
