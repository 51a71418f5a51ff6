/** src/dhcp.c: the client state machine of RFC 2131, section 4.4. */
module Dhcp {
  import opened Bytes
  import opened ArpCache
  import opened Host
  import opened Arp
  import opened Udp
  import opened DhcpOptions

  const DHCP_MAGIC := 0x6382_5363
  const FIXED_LEN := 236
  const BOOT_REQUEST := 1
  const BOOT_REPLY := 2
  const DHCP_DISCOVER := 1
  const DHCP_OFFER := 2
  const DHCP_ACK := 5
  const DHCP_NAK := 6
  const SERVER_PORT := 67
  const CLIENT_PORT := 68
  const DEFAULT_MASK := 0xFFFF_FF00

  /** The 236 fixed bytes: op, hardware type, xid, the broadcast flag and the hardware address. */
  function FixedPart(mac: Mac, xid: u32): (p: seq<byte>)
    ensures |p| == FIXED_LEN
  {
    [BOOT_REQUEST, 1, 6, 0] + BE32(xid) + [0, 0] + BE16(0x8000) + Zeros(16) + mac + Zeros(202)
  }

  function ClientMessage(mac: Mac, xid: u32, msgType: byte, reqIp: u32, serverId: u32): (p: seq<byte>)
    ensures |p| <= FIXED_LEN + 64
  {
    FixedPart(mac, xid) + BE32(DHCP_MAGIC) + ClientOptions(msgType, reqIp, serverId)
  }

  /** dhcp_send */
  function DhcpSend(s: State, msgType: byte, reqIp: u32, serverId: u32, now: u64): (r: Out) {
    UdpTx(s, IP_BCAST, CLIENT_PORT, SERVER_PORT, ClientMessage(s.mac, s.xid, msgType, reqIp, serverId), now)
  }

  function SessionId(now: u64): (r: u32) { Xor32(now % 0x1_0000_0000, 0xABCD_1234) }

  function Started(s: State, now: u64): (r: State) {
    var binds := BindPort(s.udp, CLIENT_PORT);
    s.(xid := SessionId(now), phase := Discover, config := Config(0, 0, 0, 0),
       udp := if binds.Some? then binds.value else s.udp)
  }

  /** dhcp_start */
  function DhcpStart(s: State, now: u64): (r: Out) {
    DhcpSend(Started(s, now), DHCP_DISCOVER, 0, 0, now)
  }

  // ---------------------------------------------------------------- receiving

  /** A reply of the session: BOOTREPLY, our xid, and the magic cookie. */
  predicate InSession(xid: u32, data: seq<byte>) {
    |data| >= FIXED_LEN + 4 && data[0] == BOOT_REPLY && Get32(data, 4) == xid && Get32(data, FIXED_LEN) == DHCP_MAGIC
  }

  function Options(data: seq<byte>): (r: seq<byte>)
    requires |data| >= FIXED_LEN + 4
  {
    data[FIXED_LEN + 4..]
  }

  function YourIp(data: seq<byte>): (r: u32)
    requires |data| >= FIXED_LEN + 4
  {
    Get32(data, 16)
  }

  function OrElse(v: u32, default: u32): (r: u32) { if v != 0 then v else default }

  /** The server an offer comes from: its server identifier, or else its IP source. */
  function OfferedBy(srcIp: u32, data: seq<byte>): (r: u32)
    requires |data| >= FIXED_LEN + 4
  {
    OrElse(GetOpt32(Options(data), OPT_SERVER_ID), srcIp)
  }

  /** The configuration an ACK grants, with the defaults of the code. */
  function Granted(data: seq<byte>): (r: Config)
    requires |data| >= FIXED_LEN + 4
  {
    Config(YourIp(data), OrElse(GetOpt32(Options(data), OPT_SUBNET), DEFAULT_MASK),
           GetOpt32(Options(data), OPT_ROUTER), GetOpt32(Options(data), OPT_DNS))
  }

  predicate Offers(s: State, data: seq<byte>) {
    s.phase == Discover && InSession(s.xid, data) && GetMsgType(Options(data)) == DHCP_OFFER
  }

  predicate Acks(s: State, data: seq<byte>) {
    s.phase == Request && InSession(s.xid, data) && GetMsgType(Options(data)) == DHCP_ACK
  }

  predicate Naks(s: State, data: seq<byte>) {
    InSession(s.xid, data) && GetMsgType(Options(data)) == DHCP_NAK
  }

  /** dhcp_rx */
  function DhcpRx(s: State, srcIp: u32, data: seq<byte>, now: u64): (r: Out) {
    if Offers(s, data) then
      var server := OfferedBy(srcIp, data);
      DhcpSend(s.(server := server, phase := Request), DHCP_REQUEST, YourIp(data), server, now)
    else if Acks(s, data) then ArpAnnounce(s.(config := Granted(data), phase := Bound))
    else if Naks(s, data) then Out(s.(phase := Failed), [])
    else Out(s, [])
  }

  // ---------------------------------------------------------------- the code

  method RunDhcpSend(g: NetState, msgType: byte, reqIp: u32, serverId: u32, now: u64)
    requires g.Valid()
    modifies g`sent, g`ipId, g.arpCache
    ensures g.Valid()
    ensures var r := DhcpSend(old(g.Snapshot()), msgType, reqIp, serverId, now);
            g.Snapshot() == r.state && g.sent == old(g.sent) + r.sent
  {
    var pkt, total := BuildMessage(g, msgType, reqIp, serverId);
    var ok := RunUdpTx(g, IP_BCAST, CLIENT_PORT, SERVER_PORT, pkt[..total], now);
  }

  /** The packet buffer of dhcp_send, and how much of it is used. */
  method BuildMessage(g: NetState, msgType: byte, reqIp: u32, serverId: u32) returns (pkt: array<byte>, opt: nat)
    ensures fresh(pkt) && opt <= pkt.Length && pkt[..opt] == ClientMessage(g.mac, g.xid, msgType, reqIp, serverId)
  {
    pkt := new byte[FIXED_LEN + 64](_ => 0);
    opt := FillFixed(g, pkt);
    ghost var head := pkt[..opt];
    Append(pkt, opt, [OPT_MSG_TYPE, 1, msgType]);
    opt := opt + 3;
    ghost var a, b := AddressOption(OPT_REQ_IP, reqIp), AddressOption(OPT_SERVER_ID, serverId);
    if msgType == DHCP_REQUEST {
      if reqIp != 0 {
        Append(pkt, opt, [OPT_REQ_IP, 4] + BE32(reqIp));
        opt := opt + 6;
      }
      assert pkt[..opt] == head + [OPT_MSG_TYPE, 1, msgType] + a;
      if serverId != 0 {
        Append(pkt, opt, [OPT_SERVER_ID, 4] + BE32(serverId));
        opt := opt + 6;
      }
      assert pkt[..opt] == head + [OPT_MSG_TYPE, 1, msgType] + a + b;
    }
    Append(pkt, opt, [OPT_END]);
    opt := opt + 1;
    MessageShape(head, msgType, reqIp, serverId);
  }

  lemma MessageShape(head: seq<byte>, msgType: byte, reqIp: u32, serverId: u32)
    ensures head + ClientOptions(msgType, reqIp, serverId) ==
            head + [OPT_MSG_TYPE, 1, msgType]
            + (if msgType == DHCP_REQUEST then AddressOption(OPT_REQ_IP, reqIp) + AddressOption(OPT_SERVER_ID, serverId) else [])
            + [OPT_END]
    ensures msgType == DHCP_REQUEST ==>
              head + ClientOptions(msgType, reqIp, serverId) ==
              head + [OPT_MSG_TYPE, 1, msgType] + AddressOption(OPT_REQ_IP, reqIp) + AddressOption(OPT_SERVER_ID, serverId)
              + [OPT_END]
    ensures msgType != DHCP_REQUEST ==>
              head + ClientOptions(msgType, reqIp, serverId) == head + [OPT_MSG_TYPE, 1, msgType] + [OPT_END]
  {}

  /** The four stores into a cleared buffer make the fixed part. */
  lemma FixedIsFilled(z: seq<byte>, mac: Mac, xid: u32)
    requires |z| >= FIXED_LEN && forall i :: 0 <= i < |z| ==> z[i] == 0
    ensures Overlay(Overlay(Overlay(Overlay(z, 0, [BOOT_REQUEST, 1, 6, 0]), 4, BE32(xid)), 10, BE16(0x8000)), 28, mac)[..FIXED_LEN]
            == FixedPart(mac, xid)
  {
    var head: seq<byte> := [BOOT_REQUEST, 1, 6, 0];
    var a := Overlay(z, 0, head);
    var b := Overlay(a, 4, BE32(xid));
    var c := Overlay(b, 10, BE16(0x8000));
    var p := FixedPart(mac, xid);
    assert p[..4] == head && p[4..8] == BE32(xid) && p[8..10] == [0, 0] && p[10..12] == BE16(0x8000);
    assert p[12..28] == Zeros(16) && p[28..34] == mac && p[34..] == Zeros(202);
    forall i | 0 <= i < FIXED_LEN ensures Overlay(c, 28, mac)[i] == p[i] {
      if i < 12 { FixedHead(p, i); }
      else if i < 28 { assert p[12..28][i - 12] == p[i]; }
      else if i < 34 { assert p[28..34][i - 28] == p[i]; }
      else { assert p[34..][i - 34] == p[i]; }
    }
  }

  lemma FixedHead(p: seq<byte>, i: nat)
    requires |p| == FIXED_LEN && i < 12
    ensures i < 4 ==> p[i] == p[..4][i]
    ensures 4 <= i < 8 ==> p[i] == p[4..8][i - 4]
    ensures 8 <= i < 10 ==> p[i] == p[8..10][i - 8]
    ensures 10 <= i ==> p[i] == p[10..12][i - 10]
  {}

  /** The fixed header and magic cookie of dhcp_send. */
  method FillFixed(g: NetState, pkt: array<byte>) returns (opt: nat)
    requires pkt.Length == FIXED_LEN + 64 && forall i :: 0 <= i < pkt.Length ==> pkt[i] == 0
    modifies pkt
    ensures opt == FIXED_LEN + 4 && pkt[..opt] == FixedPart(g.mac, g.xid) + BE32(DHCP_MAGIC)
  {
    Put(pkt, 0, [BOOT_REQUEST, 1, 6, 0]);
    Put(pkt, 4, BE32(g.xid));
    Put(pkt, 10, BE16(0x8000));
    Put(pkt, 28, g.mac);
    FixedIsFilled(old(pkt[..]), g.mac, g.xid);
    Append(pkt, FIXED_LEN, BE32(DHCP_MAGIC));
    opt := FIXED_LEN + 4;
  }

  method RunDhcpStart(g: NetState, now: u64)
    requires g.Valid()
    modifies g, g.arpCache, g.udpBinds
    ensures g.Valid()
    ensures var r := DhcpStart(old(g.Snapshot()), now);
            g.Snapshot() == r.state && g.sent == old(g.sent) + r.sent
  {
    BeginSession(g, now);
    RunDhcpSend(g, DHCP_DISCOVER, 0, 0, now);
  }

  /** Its assignments, and the binding of port 68. */
  method BeginSession(g: NetState, now: u64)
    requires g.Valid()
    modifies g`xid, g`phase, g`config, g.udpBinds
    ensures g.Valid() && g.Snapshot() == Started(old(g.Snapshot()), now)
  {
    g.xid := SessionId(now);
    g.phase := Discover;
    g.config := Config(0, 0, 0, 0);
    var ok := RunBind(g, CLIENT_PORT);
  }

  method RunDhcpRx(g: NetState, srcIp: u32, data: seq<byte>, now: u64)
    requires g.Valid()
    modifies g, g.arpCache
    ensures g.Valid()
    ensures var r := DhcpRx(old(g.Snapshot()), srcIp, data, now);
            g.Snapshot() == r.state && g.sent == old(g.sent) + r.sent
  {
    if |data| < FIXED_LEN + 4 { return; }
    if data[0] != BOOT_REPLY { return; }
    var xid := Get32(data, 4);
    if xid != g.xid { return; }
    var magic := Get32(data, FIXED_LEN);
    if magic != DHCP_MAGIC { return; }
    RunReply(g, srcIp, data, now);
  }

  /** The rest of dhcp_rx, for a reply of the session. */
  method RunReply(g: NetState, srcIp: u32, data: seq<byte>, now: u64)
    requires g.Valid() && InSession(g.xid, data)
    modifies g, g.arpCache
    ensures g.Valid()
    ensures var r := DhcpRx(old(g.Snapshot()), srcIp, data, now);
            g.Snapshot() == r.state && g.sent == old(g.sent) + r.sent
  {
    var opts := data[FIXED_LEN + 4..];
    var msgType := RunGetMsgType(opts);
    var yourIp := Get32(data, 16);
    var serverId := RunGetOpt32(opts, OPT_SERVER_ID);
    var subnet := RunGetOpt32(opts, OPT_SUBNET);
    var router := RunGetOpt32(opts, OPT_ROUTER);
    var dns := RunGetOpt32(opts, OPT_DNS);
    if msgType == DHCP_OFFER && g.phase == Discover {
      TakeOffer(g, if serverId != 0 then serverId else srcIp, yourIp, now);
      return;
    }
    if msgType == DHCP_ACK && g.phase == Request {
      TakeLease(g, Config(yourIp, if subnet != 0 then subnet else DEFAULT_MASK,
                          if router != 0 then router else 0, if dns != 0 then dns else 0));
      return;
    }
    if msgType == DHCP_NAK { g.phase := Failed; }
  }

  method TakeOffer(g: NetState, server: u32, yourIp: u32, now: u64)
    requires g.Valid()
    modifies g, g.arpCache
    ensures g.Valid()
    ensures var r := DhcpSend(old(g.Snapshot()).(server := server, phase := Request), DHCP_REQUEST, yourIp, server, now);
            g.Snapshot() == r.state && g.sent == old(g.sent) + r.sent
  {
    g.server := server;
    g.phase := Request;
    RunDhcpSend(g, DHCP_REQUEST, yourIp, g.server, now);
  }

  method TakeLease(g: NetState, c: Config)
    requires g.Valid()
    modifies g
    ensures g.Valid()
    ensures var r := ArpAnnounce(old(g.Snapshot()).(config := c, phase := Bound));
            g.Snapshot() == r.state && g.sent == old(g.sent) + r.sent
  {
    g.config := c;
    g.phase := Bound;
    RunArpAnnounce(g);
  }

  // ---------------------------------------------------------------- what a server reads

  /** What a server reads in the fixed part of a client's message: BOOTREQUEST from an Ethernet
      client, the session, the broadcast flag, no addresses, the hardware address, no names. */
  ghost predicate FixedReads(p: seq<byte>, mac: Mac, xid: u32) {
    && |p| >= 236 && p[0] == 1 && p[1] == 1 && p[2] == 6 && p[3] == 0 && Get32(p, 4) == xid
    && Get16(p, 8) == 0 && Get16(p, 10) == 0x8000 && p[12..28] == Zeros(16) && p[28..34] == mac && p[34..236] == Zeros(202)
  }

  /** And in the rest: the magic cookie, the type option first, and the end mark last. */
  ghost predicate ClientReads(p: seq<byte>, mac: Mac, xid: u32, msgType: byte) {
    && FixedReads(p, mac, xid)
    && |p| > 243 && Get32(p, 236) == 0x6382_5363 && p[240] == 53 && p[241] == 1 && p[242] == msgType && p[|p| - 1] == 255
    && GetMsgType(p[240..]) == msgType
  }

  /** A server that reads a client message finds all that, and in a REQUEST both addresses. */
  lemma ClientMessageFields(mac: Mac, xid: u32, msgType: byte, reqIp: u32, serverId: u32)
    ensures var p := ClientMessage(mac, xid, msgType, reqIp, serverId);
            && ClientReads(p, mac, xid, msgType)
            && (msgType == 3 ==> GetOpt32(p[240..], 50) == reqIp && GetOpt32(p[240..], 54) == serverId)
  {
    var f, o := FixedPart(mac, xid), ClientOptions(msgType, reqIp, serverId);
    var p := ClientMessage(mac, xid, msgType, reqIp, serverId);
    OptionsRoundTrip(msgType, reqIp, serverId);
    assert p[240..] == o && |o| >= 4;
    assert p[240] == o[0] && p[241] == o[1] && p[242] == o[2] && p[|p| - 1] == o[|o| - 1];
    Get32BE(f, DHCP_MAGIC, o);
    FixedFields(mac, xid);
    SamePrefix(p, f, mac, xid);
  }

  lemma FixedFields(mac: Mac, xid: u32)
    ensures FixedReads(FixedPart(mac, xid), mac, xid)
  {
    var p, z: seq<byte> := FixedPart(mac, xid), [BOOT_REQUEST, 1, 6, 0];
    var t := [0, 0] + BE16(0x8000) + Zeros(16) + mac + Zeros(202);
    assert p == z + BE32(xid) + t;
    Get32BE(z, xid, t);
    var u := z + BE32(xid) + [0, 0];
    assert p == u + BE16(0x8000) + (Zeros(16) + mac + Zeros(202));
    Get16BE(u, 0x8000, Zeros(16) + mac + Zeros(202));
    var v := u + BE16(0x8000);
    assert p == v + Zeros(16) + (mac + Zeros(202));
    assert p[12..28] == Zeros(16) && p[28..34] == mac && p[34..236] == Zeros(202);
    assert p[8] == 0 && p[9] == 0;
  }

  lemma SamePrefix(p: seq<byte>, q: seq<byte>, mac: Mac, xid: u32)
    requires |q| == 236 <= |p| && p[..236] == q && FixedReads(q, mac, xid)
    ensures FixedReads(p, mac, xid)
  {
    assert forall i :: 0 <= i < 236 ==> p[i] == q[i];
    assert p[12..28] == q[12..28] && p[28..34] == q[28..34] && p[34..236] == q[34..236];
  }
}
