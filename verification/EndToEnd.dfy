/** Exchanges between two daemons: a datagram, a ping, and the resolution of an address. */
module EndToEnd {
  import opened Bytes
  import opened Checksum
  import opened ArpCache
  import opened Host
  import opened Arp
  import opened Ip
  import opened Icmp
  import opened Udp
  import opened DhcpOptions
  import opened Dhcp
  import opened Dns
  import opened Receive
  import opened Sent
  import opened Routing
  import DhcpRuns

  function Last(o: Out): (r: Frame)
    requires o.sent != []
  {
    o.sent[|o.sent| - 1]
  }

  /** The address is one the host listens to. */
  predicate Listens(s: State, dst: u32) { s.config.ip == 0 || dst == s.config.ip || dst == IP_BCAST }

  /** What the receiver does with the frame of an ip_tx: learn the sender, and hand the payload on;
      or nothing at all, if the frame is for somebody else. */
  lemma FrameArrives(a: State, dst: u32, proto: byte, payload: seq<byte>, t: u64, b: State, now: u64, later: u64)
    requires 0 < |payload| <= IP_MAX_PAYLOAD && (proto == PROTO_UDP ==> UdpSized(payload))
    ensures var f := Last(IpTx(a, dst, proto, payload, t));
            && Deliverable(f)
            && RxOnce(b, f, now, later) ==
               if Listens(b, dst) then Dispatch(LearnSender(b, a.config.ip, a.mac, now), proto, a.config.ip, payload, later)
               else Out(b, [])
  {
    var o := IpTx(a, dst, proto, payload, t);
    IpTxSends(a, dst, proto, payload, t);
    var f := Last(o);
    assert Accepts(b, f) <==> Listens(b, dst);
    if Listens(b, dst) { AcceptedIsDispatched(b, f, now, later); }
  }

  // ---------------------------------------------------------------- a datagram

  /** A datagram from one daemon's udp_tx is what the other's udp_recv returns, with the sender's
      address and port, and only the destination port's mailbox changes; it is returned once. */
  lemma DatagramArrives(a: State, dst: u32, srcPort: u16, dstPort: u16, data: seq<byte>, t: u64,
                        b: State, now: u64, later: u64, max: nat)
    requires 0 < |data| <= 1472 && WellFormed(b) && Listens(b, dst)
    requires dstPort != 68 && srcPort != 53 && !Box(b.udp, dstPort).Unbound?
    ensures var f := Last(UdpTx(a, dst, srcPort, dstPort, data, t));
            && Deliverable(f)
            && var b' := RxOnce(b, f, now, later).state;
               var r := Recv(b'.udp, dstPort, max);
               && r.datagram == Some(Datagram(Clipped(data, max), a.config.ip, srcPort))
               && Box(r.binds, dstPort) == Empty
               && (forall q: u16 :: q != dstPort ==> Box(b'.udp, q) == Box(b.udp, q))
    ensures |data| <= max ==> Clipped(data, max) == data
  {
    var p := UdpPacket(srcPort, dstPort, data);
    UdpPacketFields(srcPort, dstPort, data);
    FrameArrives(a, dst, PROTO_UDP, p, t, b, now, later);
    assert p[8..Get16(p, 4)] == data;
    DeliverLaw(b.udp, dstPort, data, a.config.ip, srcPort);
    RecvLaw(Deliver(b.udp, dstPort, data, a.config.ip, srcPort), dstPort, max);
  }

  // ---------------------------------------------------------------- a ping

  /** The target of an echo request answers it. */
  lemma EchoIsAnswered(a: State, dst: u32, p: seq<byte>, t: u64, f: Frame, b: State, t1: u64, t2: u64)
    requires 8 <= |p| <= IP_MAX_PAYLOAD && p[0] == ECHO_REQUEST && Listens(b, dst) && f == Last(IpTx(a, dst, PROTO_ICMP, p, t))
    ensures Deliverable(f)
    ensures RxOnce(b, f, t1, t2) == IpTx(LearnSender(b, a.config.ip, a.mac, t1), a.config.ip, PROTO_ICMP, EchoReply(p), t2)
  {
    FrameArrives(a, dst, PROTO_ICMP, p, t, b, t1, t2);
  }

  /** The reply frame is an IP frame of the target. */
  lemma EchoIsIp(b: State, ip: u32, mac: Mac, p: seq<byte>, t1: u64, t2: u64, o: Out)
    requires 8 <= |p| && o == IpTx(LearnSender(b, ip, mac, t1), ip, PROTO_ICMP, EchoReply(p), t2)
    ensures o.sent != [] && IsIp(Last(o), b, ip, PROTO_ICMP, EchoReply(p))
  {
    var b1 := LearnSender(b, ip, mac, t1);
    IpTxSends(b1, ip, PROTO_ICMP, EchoReply(p), t2);
    SameSender(Last(o), b1, b, ip, PROTO_ICMP, EchoReply(p));
  }

  /** A reply with the right numbers completes a ping. */
  lemma ReplyCompletes(b: State, dst: u32, r: seq<byte>, t: u64, a: State, t3: u64, t4: u64)
    requires 8 <= |r| <= IP_MAX_PAYLOAD && r[0] == ECHO_REPLY && Listens(a, dst)
    requires Get16(r, 4) == a.ping.id && Get16(r, 6) == a.ping.seqNo
    ensures var f := Last(IpTx(b, dst, PROTO_ICMP, r, t));
            && Deliverable(f)
            && var o := RxOnce(a, f, t3, t4);
               o.sent == [] && o.state == LearnSender(a, b.config.ip, b.mac, t3).(ping := a.ping.(replyIp := b.config.ip, replied := true))
  {
    FrameArrives(b, dst, PROTO_ICMP, r, t, a, t3, t4);
  }

  /** The reply to a ping is what its sender waits for. */
  lemma PingReplyMatches(id: u16, seqNo: u16)
    ensures var p, r := PingMessage(id, seqNo), EchoReply(PingMessage(id, seqNo));
            && |p| == |r| == 16 && p[0] == ECHO_REQUEST && r[0] == ECHO_REPLY && Verifies(r)
            && Get16(r, 4) == id && Get16(r, 6) == seqNo
  {
    var p, r := PingMessage(id, seqNo), EchoReply(PingMessage(id, seqNo));
    PingMessageFields(id, seqNo);
    EchoReplyIsFaithful(p);
    assert r[4..] == p[4..];
    assert r[4..][0] == r[4] && r[4..][1] == r[5] && r[4..][2] == r[6] && r[4..][3] == r[7];
    assert p[4..][0] == p[4] && p[4..][1] == p[5] && p[4..][2] == p[6] && p[4..][3] == p[7];
  }

  /** An echo request on the wire, and the reply its target puts there. */
  lemma EchoExchange(a: State, dst: u32, p: seq<byte>, t: u64, b: State, t1: u64, t2: u64) returns (request: Frame, reply: Frame)
    requires 8 <= |p| <= IP_MAX_PAYLOAD && p[0] == ECHO_REQUEST && b.config.ip == dst != 0
    ensures request == Last(IpTx(a, dst, PROTO_ICMP, p, t)) && Deliverable(request)
    ensures RxOnce(b, request, t1, t2).sent != [] && reply == Last(RxOnce(b, request, t1, t2))
    ensures IsIp(reply, b, a.config.ip, PROTO_ICMP, EchoReply(p))
    ensures reply == Last(IpTx(LearnSender(b, a.config.ip, a.mac, t1), a.config.ip, PROTO_ICMP, EchoReply(p), t2))
  {
    request := Last(IpTx(a, dst, PROTO_ICMP, p, t));
    EchoIsAnswered(a, dst, p, t, request, b, t1, t2);
    var o := RxOnce(b, request, t1, t2);
    EchoIsIp(b, a.config.ip, a.mac, p, t1, t2, o);
    reply := Last(o);
  }

  /** The ping of one daemon makes the other send an echo reply ... */
  lemma PingIsEchoed(a: State, dst: u32, id: u16, seqNo: u16, t: u64, b: State, t1: u64, t2: u64) returns (request: Frame, reply: Frame)
    requires b.config.ip == dst != 0
    ensures request == Last(IcmpPing(a, dst, id, seqNo, t)) && Deliverable(request)
    ensures RxOnce(b, request, t1, t2).sent != [] && reply == Last(RxOnce(b, request, t1, t2))
    ensures IsIp(reply, b, a.config.ip, 1, EchoReply(PingMessage(id, seqNo)))
    ensures reply == Last(IpTx(LearnSender(b, a.config.ip, a.mac, t1), a.config.ip, PROTO_ICMP, EchoReply(PingMessage(id, seqNo)), t2))
  {
    PingReplyMatches(id, seqNo);
    var a1 := a.(ping := a.ping.(id := id, seqNo := seqNo, replied := false));
    request, reply := EchoExchange(a1, dst, PingMessage(id, seqNo), t, b, t1, t2);
  }


  /** ... and that reply completes the ping. */
  lemma PingIsAnswered(a: State, dst: u32, id: u16, seqNo: u16, t: u64, b: State, t1: u64, t2: u64, a': State, t3: u64, t4: u64)
    returns (request: Frame, reply: Frame)
    requires b.config.ip == dst != 0
    requires a'.config.ip == a.config.ip && a'.ping.id == id && a'.ping.seqNo == seqNo
    ensures request == Last(IcmpPing(a, dst, id, seqNo, t)) && Deliverable(request)
    ensures RxOnce(b, request, t1, t2).sent != [] && reply == Last(RxOnce(b, request, t1, t2)) && Deliverable(reply)
    ensures var o := RxOnce(a', reply, t3, t4);
            o.sent == [] && o.state == LearnSender(a', dst, b.mac, t3).(ping := Ping(id, seqNo, dst, true))
    ensures !IcmpPing(a, dst, id, seqNo, t).state.ping.replied && Verifies(EchoReply(PingMessage(id, seqNo)))
  {
    var b1, r := LearnSender(b, a.config.ip, a.mac, t1), EchoReply(PingMessage(id, seqNo));
    PingReplyMatches(id, seqNo);
    request, reply := PingIsEchoed(a, dst, id, seqNo, t, b, t1, t2);
    ReplyCompletes(b1, a.config.ip, r, t2, a', t3, t4);
  }

  // ---------------------------------------------------------------- resolving an address

  lemma ArpArrives(s: State, f: Frame, now: u64, later: u64)
    requires |f| == ARP_LEN && Get16(f, 12) == ETHERTYPE_ARP
    ensures Deliverable(f) && RxOnce(s, f, now, later) == ArpRx(s, f, now)
  {}

  /** What the owner of an address does with a request for it. */
  lemma RequestIsAnswered(a: State, ip: u32, b: State, t1: u64, t2: u64)
    requires b.config.ip == ip != 0
    ensures var request := ArpRequest(a, ip).sent[0];
            && Deliverable(request)
            && var o := RxOnce(b, request, t1, t2);
               && o.sent == [ArpFrame(ARP_REPLY, a.mac, b.mac, ip, a.config.ip)]
               && o.state == if a.config.ip != 0 then LearnSender(b, a.config.ip, a.mac, t1) else b
  {
    ArpFrameFields(ARP_REQUEST, BCAST_MAC, a.mac, a.config.ip, ip);
    ArpArrives(b, ArpRequest(a, ip).sent[0], t1, t2);
  }

  /** What the asker does with the reply. */
  lemma ReplyIsLearned(a: State, ip: u32, mac: Mac, target: Mac, targetIp: u32, t3: u64, t4: u64)
    requires ip != 0
    ensures var reply := ArpFrame(ARP_REPLY, target, mac, ip, targetIp);
            Deliverable(reply) && reply[..6] == target && RxOnce(a, reply, t3, t4).state == LearnSender(a, ip, mac, t3)
  {
    ArpFrameFields(ARP_REPLY, target, mac, ip, targetIp);
    ArpArrives(a, ArpFrame(ARP_REPLY, target, mac, ip, targetIp), t3, t4);
  }

  /** The owner of an address answers a request for it, to the asker, and from then on for thirty
      seconds the asker resolves it; the owner has learned the asker's address, too. */
  lemma ResolutionCompletes(a: State, ip: u32, b: State, t1: u64, t2: u64, a': State, t3: u64, t4: u64, now: u64)
    requires b.config.ip == ip != 0 && t3 <= now < t3 + 30000
    ensures var request, reply := ArpRequest(a, ip).sent[0], ArpFrame(ARP_REPLY, a.mac, b.mac, ip, a.config.ip);
            && Deliverable(request) && RxOnce(b, request, t1, t2).sent == [reply]
            && (a.config.ip != 0 && t1 <= t2 < t1 + 30000 ==>
                  Lookup(RxOnce(b, request, t1, t2).state.arp, a.config.ip, t2).mac == Some(a.mac))
            && Deliverable(reply) && reply[..6] == a.mac
            && Lookup(RxOnce(a', reply, t3, t4).state.arp, ip, now).mac == Some(b.mac)
  {
    RequestIsAnswered(a, ip, b, t1, t2);
    ReplyIsLearned(a', ip, b.mac, a.mac, a.config.ip, t3, t4);
    LearnedIsFound(b.arp, a.config.ip, a.mac, t1, t2);
    LearnedIsFound(a'.arp, ip, b.mac, t3, now);
  }

  /** What was just learned is found. */
  lemma LearnedIsFound(c: Cache, ip: u32, mac: Mac, t: u64, now: u64)
    ensures t <= now < t + 30000 ==> Lookup(Learn(c, ip, mac, t), ip, now).mac == Some(mac)
  {
    var d, k := Learn(c, ip, mac, t), if Find(c, ip) < SLOTS then Find(c, ip) else Victim(c);
    assert Holds(d[k], ip) && d[k].ts == t && d[k].mac == mac;
    assert forall j :: 0 <= j < k ==> !Holds(d[j], ip);
    assert Find(d, ip) == k;
  }

  // ---------------------------------------------------------------- a lease

  /** A server's message: everything the client reads, and arbitrary bytes everywhere else. */
  datatype ServerReply = ServerReply(hw: seq<byte>, mid: seq<byte>, yourIp: u32, tail: seq<byte>, items: seq<Item>, pad: seq<byte>)

  ghost predicate ValidReply(r: ServerReply) {
    |r.hw| == 3 && |r.mid| == 8 && |r.tail| == 216 && ValidItems(r.items)
  }

  function ServerFixed(xid: u32, r: ServerReply): (res: seq<byte>) {
    [2] + r.hw + BE32(xid) + r.mid + BE32(r.yourIp) + r.tail
  }

  ghost function ServerMessage(xid: u32, r: ServerReply): (res: seq<byte>)
    requires ValidReply(r)
  {
    ServerFixed(xid, r) + BE32(0x6382_5363) + (Encode(r.items) + [255] + r.pad)
  }

  /** The message is of the given type, as its first type option says; 0 if it has none. */
  ghost predicate OfType(r: ServerReply, kind: byte) {
    kind == if First(r.items, 53, 1) == [] then 0 else First(r.items, 53, 1)[0]
  }

  /** The address in the first option with this tag, 0 if there is none. */
  ghost function Listed(r: ServerReply, tag: byte): (res: u32) {
    if First(r.items, tag, 4) == [] then 0 else At32(First(r.items, tag, 4), 0)
  }

  lemma ServerFixedFields(xid: u32, r: ServerReply)
    requires ValidReply(r)
    ensures var p := ServerFixed(xid, r);
            |p| == 236 && p[0] == 2 && Get32(p, 4) == xid && Get32(p, 16) == r.yourIp
  {
    var p := ServerFixed(xid, r);
    var p1: seq<byte> := [2] + r.hw;
    var p2 := p1 + BE32(xid) + r.mid;
    assert p == p1 + BE32(xid) + (r.mid + BE32(r.yourIp) + r.tail);
    Get32BE(p1, xid, r.mid + BE32(r.yourIp) + r.tail);
    assert p == p2 + BE32(r.yourIp) + r.tail;
    Get32BE(p2, r.yourIp, r.tail);
  }

  lemma ServerMessageFields(xid: u32, r: ServerReply)
    requires ValidReply(r)
    ensures var m := ServerMessage(xid, r);
            InSession(xid, m) && YourIp(m) == r.yourIp && Options(m) == Encode(r.items) + [255] + r.pad
  {
    var p, m, o := ServerFixed(xid, r), ServerMessage(xid, r), Encode(r.items) + [255] + r.pad;
    ServerFixedFields(xid, r);
    Get32BE(p, DHCP_MAGIC, o);
    assert forall i :: 0 <= i < FIXED_LEN ==> m[i] == p[i];
    assert m[FIXED_LEN + 4..] == o;
  }

  /** What the client's readers find in it. */
  lemma ServerMessageOptions(xid: u32, r: ServerReply, kind: byte)
    requires ValidReply(r) && OfType(r, kind)
    ensures var o := Options(ServerMessage(xid, r));
            && GetMsgType(o) == kind && GetOpt32(o, OPT_SERVER_ID) == Listed(r, 54)
            && GetOpt32(o, OPT_SUBNET) == Listed(r, 1) && GetOpt32(o, OPT_ROUTER) == Listed(r, 3)
            && GetOpt32(o, OPT_DNS) == Listed(r, 6)
  {
    ServerMessageFields(xid, r);
    ReadersMeetSpec(r.items, r.pad, OPT_SERVER_ID);
    ReadersMeetSpec(r.items, r.pad, OPT_SUBNET);
    ReadersMeetSpec(r.items, r.pad, OPT_ROUTER);
    ReadersMeetSpec(r.items, r.pad, OPT_DNS);
  }

  /** The frame in which a server sends a message to port 68. */
  function ServerFrame(srv: State, dst: u32, m: seq<byte>, t: u64): (r: Frame)
    requires |m| <= 1472
  {
    Last(UdpTx(srv, dst, 67, 68, m, t))
  }

  lemma ServerFrameArrives(srv: State, dst: u32, m: seq<byte>, t: u64, c: State, now: u64, later: u64)
    requires 0 < |m| <= 1472 && Listens(c, dst)
    ensures var f := ServerFrame(srv, dst, m, t);
            Deliverable(f) && RxOnce(c, f, now, later) ==
                              DhcpRx(LearnSender(c, srv.config.ip, srv.mac, now), srv.config.ip, m, later)
  {
    var p := UdpPacket(SERVER_PORT, Dhcp.CLIENT_PORT, m);
    UdpPacketFields(SERVER_PORT, Dhcp.CLIENT_PORT, m);
    FrameArrives(srv, dst, PROTO_UDP, p, t, c, now, later);
    assert p[8..Get16(p, 4)] == m;
  }

  /** An OFFER of the session moves a client from DISCOVER to REQUEST. */
  lemma OfferIsTaken(c: State, srv: State, dst: u32, r: ServerReply, t: u64, now: u64, later: u64)
    requires c.phase == Discover && Listens(c, dst)
    requires ValidReply(r) && OfType(r, 2) && |ServerMessage(c.xid, r)| <= 1472
    ensures var f := ServerFrame(srv, dst, ServerMessage(c.xid, r), t);
            && Deliverable(f)
            && var d := RxOnce(c, f, now, later).state;
               d.phase == Request && d.config == c.config && d.xid == c.xid
               && d.server == (if Listed(r, 54) != 0 then Listed(r, 54) else srv.config.ip)
  {
    var m := ServerMessage(c.xid, r);
    ServerFrameArrives(srv, dst, m, t, c, now, later);
    ServerMessageFields(c.xid, r);
    ServerMessageOptions(c.xid, r, 2);
    DhcpRuns.DhcpRxLease(LearnSender(c, srv.config.ip, srv.mac, now), srv.config.ip, m, later);
  }

  /** What an ACK grants: its address, and what its options list or else the defaults. */
  ghost function GrantedBy(r: ServerReply): (res: Config) {
    Config(r.yourIp, if Listed(r, 1) != 0 then Listed(r, 1) else 0xFFFF_FF00, Listed(r, 3), Listed(r, 6))
  }

  /** An ACK of the session moves it from REQUEST to BOUND, with exactly what the ACK grants, and
      the client announces its address. */
  lemma AckIsTaken(c: State, srv: State, dst: u32, r: ServerReply, t: u64, now: u64, later: u64)
    requires c.phase == Request && Listens(c, dst)
    requires ValidReply(r) && OfType(r, 5) && |ServerMessage(c.xid, r)| <= 1472
    ensures var f := ServerFrame(srv, dst, ServerMessage(c.xid, r), t);
            && Deliverable(f)
            && var o := RxOnce(c, f, now, later);
               o.state.phase == Bound && o.state.config == GrantedBy(r)
               && o.sent == [ArpFrame(1, BCAST_MAC, c.mac, r.yourIp, r.yourIp)]
  {
    var m := ServerMessage(c.xid, r);
    ServerFrameArrives(srv, dst, m, t, c, now, later);
    ServerMessageFields(c.xid, r);
    ServerMessageOptions(c.xid, r, 5);
    assert Granted(m) == GrantedBy(r);
  }

  /** A NAK of the session ends it, in any phase; nothing else changes, and nothing is sent. */
  lemma NakIsTaken(c: State, srv: State, dst: u32, r: ServerReply, t: u64, now: u64, later: u64)
    requires Listens(c, dst) && ValidReply(r) && OfType(r, 6) && |ServerMessage(c.xid, r)| <= 1472
    ensures var f := ServerFrame(srv, dst, ServerMessage(c.xid, r), t);
            && Deliverable(f)
            && var o := RxOnce(c, f, now, later);
               o.sent == [] && o.state == LearnSender(c, srv.config.ip, srv.mac, now).(phase := Failed)
  {
    ServerFrameArrives(srv, dst, ServerMessage(c.xid, r), t, c, now, later);
    ServerMessageFields(c.xid, r);
    ServerMessageOptions(c.xid, r, 6);
  }

  /** A message out of place, or of another type, changes nothing but the address cache. */
  lemma OutOfPlaceIsIgnored(c: State, srv: State, dst: u32, r: ServerReply, kind: byte, t: u64, now: u64, later: u64)
    requires Listens(c, dst) && ValidReply(r) && OfType(r, kind) && |ServerMessage(c.xid, r)| <= 1472
    requires kind != 6 && (kind == 2 ==> c.phase != Discover) && (kind == 5 ==> c.phase != Request)
    ensures var f := ServerFrame(srv, dst, ServerMessage(c.xid, r), t);
            && Deliverable(f)
            && var o := RxOnce(c, f, now, later);
               o.sent == [] && o.state == LearnSender(c, srv.config.ip, srv.mac, now)
  {
    ServerFrameArrives(srv, dst, ServerMessage(c.xid, r), t, c, now, later);
    ServerMessageFields(c.xid, r);
    ServerMessageOptions(c.xid, r, kind);
  }

  /** The exchange completes: dhcp_start, an OFFER, an ACK, from any server to any address. */
  lemma LeaseIsObtained(c: State, t: u64,
                        srv1: State, dst1: u32, offer: ServerReply, t1: u64, now1: u64, later1: u64,
                        srv2: State, dst2: u32, ack: ServerReply, t2: u64, now2: u64, later2: u64)
    requires ValidReply(offer) && OfType(offer, 2) && |ServerMessage(SessionId(t), offer)| <= 1472
    requires ValidReply(ack) && OfType(ack, 5) && |ServerMessage(SessionId(t), ack)| <= 1472
    ensures var c1 := DhcpStart(c, t).state;
            var f1 := ServerFrame(srv1, dst1, ServerMessage(SessionId(t), offer), t1);
            && c1.phase == Discover && Deliverable(f1)
            && var c2 := RxOnce(c1, f1, now1, later1).state;
               var f2 := ServerFrame(srv2, dst2, ServerMessage(SessionId(t), ack), t2);
               && c2.phase == Request && Deliverable(f2)
               && var c3 := RxOnce(c2, f2, now2, later2).state;
                  c3.phase == Bound && c3.config == GrantedBy(ack)
  {
    DhcpRuns.StartBegins(c, t);
    var c1 := DhcpStart(c, t).state;
    OfferIsTaken(c1, srv1, dst1, offer, t1, now1, later1);
    var c2 := RxOnce(c1, ServerFrame(srv1, dst1, ServerMessage(SessionId(t), offer), t1), now1, later1).state;
    AckIsTaken(c2, srv2, dst2, ack, t2, now2, later2);
  }

  // ---------------------------------------------------------------- a name

  /** A datagram on the wire, as its receiver reads it. */
  ghost predicate CarriesDatagram(f: Frame, src: u32, dst: u32, srcPort: u16, dstPort: u16, data: seq<byte>) {
    && |f| >= ETH_IP && WellSized(f) && HeaderLen(f) <= TotalLen(f) && |Payload(f)| >= 8
    && SrcIp(f) == src && DstIp(f) == dst && Get16(Payload(f), 0) == srcPort && Get16(Payload(f), 2) == dstPort && Payload(f)[8..] == data
  }

  lemma DatagramIsCarried(s: State, dst: u32, srcPort: u16, dstPort: u16, data: seq<byte>, t: u64)
    requires |data| <= 1472
    ensures CarriesDatagram(Last(UdpTx(s, dst, srcPort, dstPort, data, t)), s.config.ip, dst, srcPort, dstPort, data)
  {
    UdpPacketFields(srcPort, dstPort, data);
    IpTxSends(s, dst, PROTO_UDP, UdpPacket(srcPort, dstPort, data), t);
  }

  /** What dns_resolve sends: to the configured server, the question for exactly these labels. */
  lemma QueryArrives(c: State, ls: seq<seq<byte>>, dot: bool, t: u64) returns (q: seq<byte>)
    requires DotFreeLabels(ls) && ls != [] && c.config.dns != 0 && c.config.ip != 0
    requires BuildQuery(QUERY_MAX, t % 0x1_0000, Dotted(ls) + (if dot then [DOT] else [])).Some?
    ensures var o := DnsQuery(c, Dotted(ls) + (if dot then [DOT] else []), t);
            && o.state.dns == DnsState(t % 0x1_0000, 0, 0) && o.sent != []
            && CarriesDatagram(Last(o), c.config.ip, c.config.dns, 1053, 53, q)
    ensures |q| >= 2 && Decode(q, 12) == ls && Get16(q, 0) == t % 0x1_0000
  {
    var name := Dotted(ls) + (if dot then [DOT] else []);
    q := BuildQuery(QUERY_MAX, t % 0x1_0000, name).value;
    QueryRoundTrip(QUERY_MAX, t % 0x1_0000, ls, dot);
    QueryFits(QUERY_MAX, t % 0x1_0000, name);
    DatagramIsCarried(c.(dns := DnsState(t % 0x1_0000, 0, 0)), c.config.dns, Dns.CLIENT_PORT, DNS_PORT, q, t);
  }

  /** A response to the open query, from anyone to the asker's port, is the answer. */
  lemma ResponseArrives(c: State, srv: State, dst: u32, m: seq<byte>, t: u64, now: u64, later: u64)
    requires 0 < |m| <= 1472 && Listens(c, dst)
    ensures var f := Last(UdpTx(srv, dst, 53, 1053, m, t));
            Deliverable(f) && RxOnce(c, f, now, later).state.dns == DnsRx(c.dns, m)
  {
    var p := UdpPacket(DNS_PORT, Dns.CLIENT_PORT, m);
    UdpPacketFields(DNS_PORT, Dns.CLIENT_PORT, m);
    FrameArrives(srv, dst, PROTO_UDP, p, t, c, now, later);
    assert p[8..Get16(p, 4)] == m;
  }

  /** Resolving a name completes: a server that answers the labels and the number it reads in the
      query makes dns_resolve return the first address among its records, or fail if there is none. */
  lemma NameIsResolved(c: State, ls: seq<seq<byte>>, dot: bool, t: u64,
                       srv: State, flags: u16, counts: seq<byte>, qtail: seq<byte>, rs: seq<Record>, more: seq<byte>, t1: u64,
                       c': State, now: u64, later: u64)
    returns (q: seq<byte>)
    requires DotFreeLabels(ls) && ls != [] && c.config.dns != 0 && c.config.ip != 0
    requires BuildQuery(QUERY_MAX, t % 0x1_0000, Dotted(ls) + (if dot then [DOT] else [])).Some?
    requires flags >= 0x8000 && |counts| == 4 && |qtail| == 4 && ValidRecords(rs) && |rs| < 0x1_0000
    requires |Response(t % 0x1_0000, flags, counts, ls, qtail, rs, more)| <= 1472
    requires c'.config.ip == c.config.ip && c'.dns == DnsState(t % 0x1_0000, 0, 0)
    ensures var o := DnsQuery(c, Dotted(ls) + (if dot then [DOT] else []), t);
            o.state.dns == c'.dns && o.sent != [] && CarriesDatagram(Last(o), c.config.ip, c.config.dns, 1053, 53, q)
    ensures |q| >= 2
            && var m := Response(Get16(q, 0), flags, counts, Decode(q, 12), qtail, rs, more);
               |m| <= 1472
               && var f := Last(UdpTx(srv, c.config.ip, 53, 1053, m, t1));
                  Deliverable(f) && DnsAnswer(RxOnce(c', f, now, later).state) == FirstAddress(rs)
  {
    q := QueryArrives(c, ls, dot, t);
    var m := Response(t % 0x1_0000, flags, counts, ls, qtail, rs, more);
    ResponseArrives(c', srv, c.config.ip, m, t1, now, later);
    ResponseIsUnderstood(c'.dns, flags, counts, ls, qtail, rs, more);
  }
}
