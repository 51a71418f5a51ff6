/** src/ip.c, sending: next hop, hardware address, header with checksum. */
module Ip {
  import opened Bytes
  import opened Checksum
  import opened ArpCache
  import opened Host
  import opened Arp

  const IP_MAX_PAYLOAD := 1500
  const ETH_IP := 34 // Ethernet and IP headers

  function NextHop(c: Config, dst: u32): (r: u32) {
    if c.gateway != 0 && And32(dst, c.netmask) != And32(c.ip, c.netmask) then c.gateway else dst
  }

  /** The header with its checksum field still zero. */
  function BareHeader(total: u16, id: u16, proto: byte, src: u32, dst: u32): (h: seq<byte>)
    ensures |h| == 20 && h[10] == 0 && h[11] == 0
  {
    [0x45, 0] + BE16(total) + BE16(id) + [0, 0] + [64, proto] + [0, 0] + BE32(src) + BE32(dst)
  }

  function Header(total: u16, id: u16, proto: byte, src: u32, dst: u32): (h: seq<byte>)
    ensures |h| == 20
  {
    var bare := BareHeader(total, id, proto, src, dst);
    Overlay(bare, 10, BE16(Cksum(bare)))
  }

  /** Every header that is sent passes the receiver's checksum test. */
  lemma HeaderVerifies(total: u16, id: u16, proto: byte, src: u32, dst: u32)
    ensures Verifies(Header(total, id, proto, src, dst))
  {
    StoredChecksumVerifies(BareHeader(total, id, proto, src, dst), 10);
  }

  function EthIp(dstMac: Mac, srcMac: Mac): (e: seq<byte>)
    ensures |e| == 14
  {
    dstMac + srcMac + BE16(ETHERTYPE_IP)
  }

  function IpFrame(s: State, dstMac: Mac, dst: u32, proto: byte, payload: seq<byte>): (f: Frame)
    requires |payload| <= IP_MAX_PAYLOAD
    ensures |f| == ETH_IP + |payload|
  {
    EthIp(dstMac, s.mac) + Header(20 + |payload|, s.ipId, proto, s.config.ip, dst) + payload
  }

  function Emit(s: State, dstMac: Mac, dst: u32, proto: byte, payload: seq<byte>): (r: Out)
    requires |payload| <= IP_MAX_PAYLOAD
  {
    Out(s.(ipId := (s.ipId as int + 1) % 0x1_0000), [IpFrame(s, dstMac, dst, proto, payload)])
  }

  /** ip_tx: broadcast, or look the next hop up; if it is unknown, ask for it and broadcast meanwhile. */
  function IpTx(s: State, dst: u32, proto: byte, payload: seq<byte>, now: u64): (o: Out)
    requires |payload| <= IP_MAX_PAYLOAD
    ensures o.sent != []
  {
    var hop := NextHop(s.config, dst);
    if hop == IP_BCAST || dst == IP_BCAST then Emit(s, BCAST_MAC, dst, proto, payload)
    else
      var r := Lookup(s.arp, hop, now);
      var s1 := s.(arp := r.cache);
      match r.mac
      case Some(m) => Emit(s1, m, dst, proto, payload)
      case None => Then(ArpRequest(s1, hop), Emit(s1, BCAST_MAC, dst, proto, payload))
  }

  // The fields ip_rx reads.
  function HeaderLen(f: Frame): (r: nat) requires |f| >= ETH_IP { f[14] % 16 * 4 }
  function TotalLen(f: Frame): (r: u16) requires |f| >= ETH_IP { Get16(f, 16) }
  function Proto(f: Frame): (r: byte) requires |f| >= ETH_IP { f[23] }
  function SrcIp(f: Frame): (r: u32) requires |f| >= ETH_IP { Get32(f, 26) }
  function DstIp(f: Frame): (r: u32) requires |f| >= ETH_IP { Get32(f, 30) }
  function SrcMac(f: Frame): (r: Mac) requires |f| >= ETH_IP { f[6..12] }

  /** The frame holds the bytes its IP header announces. */
  predicate WellSized(f: Frame) { |f| >= ETH_IP ==> 14 + TotalLen(f) <= |f| }

  function Payload(f: Frame): (r: seq<byte>)
    requires |f| >= ETH_IP && WellSized(f) && HeaderLen(f) <= TotalLen(f)
  {
    f[14 + HeaderLen(f)..14 + TotalLen(f)]
  }

  lemma HeaderFields(total: u16, id: u16, proto: byte, src: u32, dst: u32)
    ensures var h := Header(total, id, proto, src, dst);
            h[0] == 0x45 && h[9] == proto && Get16(h, 2) == total && Get32(h, 12) == src && Get32(h, 16) == dst
  {
    var b, h := BareHeader(total, id, proto, src, dst), Header(total, id, proto, src, dst);
    var p := [0x45, 0] + BE16(total) + BE16(id) + [0, 0] + [64, proto] + [0, 0];
    assert b == p + BE32(src) + BE32(dst) && b == (p + BE32(src)) + BE32(dst) + [];
    Get32BE(p, src, BE32(dst));
    Get32BE(p + BE32(src), dst, []);
    var q := BE16(id) + [0, 0] + [64, proto] + [0, 0] + BE32(src) + BE32(dst);
    assert b == [0x45, 0] + BE16(total) + q;
    Get16BE([0x45, 0], total, q);
    assert h[2] == b[2] && h[3] == b[3];
    assert Get32(h, 12) == Get32(b, 12) && Get32(h, 16) == Get32(b, 16);
  }

  lemma GetShift(p: seq<byte>, h: seq<byte>, q: seq<byte>, i: nat)
    requires i < |h|
    ensures (p + h + q)[|p| + i] == h[i]
    ensures i + 2 <= |h| ==> Get16(p + h + q, |p| + i) == Get16(h, i)
    ensures i + 4 <= |h| ==> Get32(p + h + q, |p| + i) == Get32(h, i)
  {}

  /** Reading a frame made of an Ethernet header, a 20-byte IP header and a payload. */
  lemma FrameFields(dstMac: Mac, srcMac: Mac, h: seq<byte>, payload: seq<byte>)
    requires |h| == 20 && h[0] == 0x45 && Get16(h, 2) == 20 + |payload|
    ensures var f := EthIp(dstMac, srcMac) + h + payload;
            Get16(f, 12) == ETHERTYPE_IP && HeaderLen(f) == 20 && TotalLen(f) == 20 + |payload| && WellSized(f)
            && Proto(f) == h[9] && SrcIp(f) == Get32(h, 12) && DstIp(f) == Get32(h, 16) && SrcMac(f) == srcMac
            && Payload(f) == payload && f[..6] == dstMac
  {
    var e := EthIp(dstMac, srcMac);
    GetShift(e, h, payload, 0);
    GetShift(e, h, payload, 2);
    GetShift(e, h, payload, 9);
    GetShift(e, h, payload, 12);
    GetShift(e, h, payload, 16);
    var f := e + h + payload;
    assert f == (dstMac + srcMac) + BE16(ETHERTYPE_IP) + (h + payload);
    Get16BE(dstMac + srcMac, ETHERTYPE_IP, h + payload);
    assert f[34..34 + |payload|] == payload;
  }

  /** A frame from ip_tx is read back field by field. */
  lemma IpFrameFields(s: State, dstMac: Mac, dst: u32, proto: byte, payload: seq<byte>)
    requires |payload| <= IP_MAX_PAYLOAD
    ensures var f := IpFrame(s, dstMac, dst, proto, payload);
            Get16(f, 12) == ETHERTYPE_IP && HeaderLen(f) == 20 && TotalLen(f) == 20 + |payload| && WellSized(f)
            && Proto(f) == proto && SrcIp(f) == s.config.ip && DstIp(f) == dst && SrcMac(f) == s.mac
            && Payload(f) == payload && f[..6] == dstMac
  {
    HeaderFields(20 + |payload|, s.ipId, proto, s.config.ip, dst);
    FrameFields(dstMac, s.mac, Header(20 + |payload|, s.ipId, proto, s.config.ip, dst), payload);
  }

  // ---------------------------------------------------------------- the code

  method RunIpTx(g: NetState, dst: u32, proto: byte, payload: seq<byte>, now: u64)
    requires g.Valid() && |payload| <= IP_MAX_PAYLOAD
    modifies g`sent, g`ipId, g.arpCache
    ensures g.Valid()
    ensures var r := IpTx(old(g.Snapshot()), dst, proto, payload, now);
            g.Snapshot() == r.state && g.sent == old(g.sent) + r.sent
  {
    var hop := dst;
    if g.config.gateway != 0 && And32(dst, g.config.netmask) != And32(g.config.ip, g.config.netmask) {
      hop := g.config.gateway;
    }
    var dstMac := BCAST_MAC;
    if !(hop == IP_BCAST || dst == IP_BCAST) {
      var m := RunLookup(g, hop, now);
      if m.Some? { dstMac := m.value; } else { RunArpRequest(g, hop); }
    }
    RunEmit(g, dstMac, dst, proto, payload);
  }

  /** The second half of ip_tx: build the frame and send it. */
  method RunEmit(g: NetState, dstMac: Mac, dst: u32, proto: byte, payload: seq<byte>)
    requires g.Valid() && |payload| <= IP_MAX_PAYLOAD
    modifies g`sent, g`ipId
    ensures g.Valid()
    ensures var r := Emit(old(g.Snapshot()), dstMac, dst, proto, payload);
            g.Snapshot() == r.state && g.sent == old(g.sent) + r.sent
  {
    var frame := BuildFrame(g, dstMac, dst, proto, payload);
    var id: int := g.ipId;
    g.ipId := (id + 1) % 0x1_0000;
    g.DriverTx(frame);
  }

  /** The frame buffer of ip_tx. */
  method BuildFrame(g: NetState, dstMac: Mac, dst: u32, proto: byte, payload: seq<byte>) returns (f: Frame)
    requires g.Valid() && |payload| <= IP_MAX_PAYLOAD
    ensures f == IpFrame(g.Snapshot(), dstMac, dst, proto, payload)
  {
    var ip := BuildHeader(20 + |payload|, g.ipId, proto, g.config.ip, dst);
    var frame := new byte[ETH_IP + |payload|](_ => 0);
    Append(frame, 0, dstMac);
    Append(frame, 6, g.mac);
    Append(frame, 12, BE16(ETHERTYPE_IP));
    assert frame[..14] == EthIp(dstMac, g.mac);
    Append(frame, 14, ip);
    Append(frame, 34, payload);
    assert frame[..] == frame[..ETH_IP + |payload|];
    return frame[..];
  }

  /** The header part of ip_tx: every field, then the checksum over them. */
  method BuildHeader(total: u16, id: u16, proto: byte, src: u32, dst: u32) returns (h: seq<byte>)
    ensures h == Header(total, id, proto, src, dst)
  {
    var ip := new byte[20](_ => 0);
    Append(ip, 0, [0x45, 0]);
    Append(ip, 2, BE16(total));
    Append(ip, 4, BE16(id));
    Append(ip, 6, [0, 0]);
    Append(ip, 8, [64, proto]);
    Append(ip, 10, [0, 0]);
    assert ip[..12] == [0x45, 0] + BE16(total) + BE16(id) + [0, 0] + [64, proto] + [0, 0];
    Append(ip, 12, BE32(src));
    Append(ip, 16, BE32(dst));
    assert ip[..] == ip[..20] == BareHeader(total, id, proto, src, dst);
    var c := InetCksum(ip[..]);
    Put(ip, 10, BE16(c));
    return ip[..];
  }
}
