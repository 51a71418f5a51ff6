/** Where ip_tx sends: the next hop, told by the addresses themselves, and the frames that leave. */
module Routing {
  import opened Bits
  import opened Bytes
  import opened Checksum
  import opened ArpCache
  import opened Host
  import opened Arp
  import opened Ip
  import opened Sent

  /** The address agrees with our own in every bit that the netmask selects. */
  ghost predicate OnLink(c: Config, dst: u32) {
    forall i: nat :: Bit(c.netmask, i) == 1 ==> Bit(dst, i) == Bit(c.ip, i)
  }

  /** Direct delivery on the own network and without a gateway; otherwise the gateway. */
  ghost predicate IsHop(c: Config, dst: u32, hop: u32) {
    if c.gateway == 0 || OnLink(c, dst) then hop == dst else hop == c.gateway
  }

  /** ip_tx resolves just that address. */
  lemma HopIsRight(c: Config, dst: u32)
    ensures IsHop(c, dst, NextHop(c, dst))
  {
    AndAgrees(dst, c.ip, c.netmask);
  }

  /** With a netmask of 32 - k ones, the own network is the addresses with the same first 32 - k bits. */
  lemma OnLinkWhen(c: Config, dst: u32, k: nat)
    requires k <= 32 && c.netmask == 0x1_0000_0000 - Pow2(k)
    ensures OnLink(c, dst) <==> dst / Pow2(k) == c.ip / Pow2(k)
  {
    Pow2Of32();
    AndAgrees(dst, c.ip, c.netmask);
    AndPrefixMask(dst, k, 32);
    AndPrefixMask(c.ip, k, 32);
    SameMultiple(High(dst, k), High(c.ip, k), Pow2(k));
    HighIsQuotient(dst, k);
    HighIsQuotient(c.ip, k);
  }

  lemma HopWhen(c: Config, dst: u32, k: nat)
    requires k <= 32 && c.netmask == 0x1_0000_0000 - Pow2(k)
    ensures NextHop(c, dst) == if c.gateway != 0 && dst / Pow2(k) != c.ip / Pow2(k) then c.gateway else dst
  {
    HopIsRight(c, dst);
    OnLinkWhen(c, dst, k);
  }

  // ---------------------------------------------------------------- the header

  /** Version and length, service type, identification, fragment field and time to live. */
  lemma HeaderRest(total: u16, id: u16, proto: byte, src: u32, dst: u32)
    ensures var h := Header(total, id, proto, src, dst);
            h[0] == 0x45 && h[1] == 0 && Get16(h, 4) == id && h[6] == 0 && h[7] == 0 && h[8] == 64
  {
    var b, h := BareHeader(total, id, proto, src, dst), Header(total, id, proto, src, dst);
    var p, q := [0x45, 0] + BE16(total), [0, 0] + [64, proto] + [0, 0] + BE32(src) + BE32(dst);
    assert b == p + BE16(id) + q;
    Get16BE(p, id, q);
    assert b[6] == q[0] && b[7] == q[1] && b[8] == q[2];
    assert h[4] == b[4] && h[5] == b[5];
  }

  /** The IP header on the wire: version 4, five words, no service type, the identification, no
      fragment, 64 hops to live, and a checksum that verifies. */
  ghost predicate HasHeader(f: Frame, id: u16) {
    |f| >= 34 && f[14] == 0x45 && f[15] == 0 && Get16(f, 18) == id && f[20] == 0 && f[21] == 0 && f[22] == 64 && Verifies(f[14..34])
  }

  lemma FrameRest(s: State, dstMac: Mac, dst: u32, proto: byte, payload: seq<byte>)
    requires |payload| <= 1500
    ensures HasHeader(IpFrame(s, dstMac, dst, proto, payload), s.ipId)
  {
    var h := Header(20 + |payload|, s.ipId, proto, s.config.ip, dst);
    HeaderRest(20 + |payload|, s.ipId, proto, s.config.ip, dst);
    HeaderVerifies(20 + |payload|, s.ipId, proto, s.config.ip, dst);
    var f := IpFrame(s, dstMac, dst, proto, payload);
    assert f[14..34] == h;
    assert forall i :: 0 <= i < 20 ==> f[14 + i] == h[i];
  }

  // ---------------------------------------------------------------- what leaves

  /** An ARP request for the address, to everyone. */
  ghost predicate AsksFor(f: Frame, s: State, ip: u32) {
    IsArp(f, s) && ArpOp(f) == 1 && ArpDstIp(f) == ip && f[..6] == BCAST_MAC
  }

  lemma RequestAsks(s: State, ip: u32)
    ensures AsksFor(ArpRequest(s, ip).sent[0], s, ip)
  {
    ArpFrameFields(ARP_REQUEST, BCAST_MAC, s.mac, s.config.ip, ip);
  }

  /** A broadcast leaves at once, without a lookup. */
  lemma BroadcastLeaves(s: State, dst: u32, hop: u32, proto: byte, payload: seq<byte>, now: u64)
    requires |payload| <= 1500 && IsHop(s.config, dst, hop) && (dst == 0xFFFF_FFFF || hop == 0xFFFF_FFFF)
    ensures var o := IpTx(s, dst, proto, payload, now);
            && |o.sent| == 1 && IsIp(o.sent[0], s, dst, proto, payload) && o.sent[0][..6] == BCAST_MAC
            && HasHeader(o.sent[0], s.ipId) && o.state == s.(ipId := (s.ipId as int + 1) % 0x1_0000)
  {
    HopIsRight(s.config, dst);
    EmitIsIp(s, BCAST_MAC, dst, proto, payload);
    IpFrameFields(s, BCAST_MAC, dst, proto, payload);
    FrameRest(s, BCAST_MAC, dst, proto, payload);
  }

  /** The state ip_tx leaves behind after a lookup: the cache, and the next identification. */
  ghost predicate SentAfter(s: State, r: Answer, t: State) {
    t == s.(arp := r.cache, ipId := (s.ipId as int + 1) % 0x1_0000)
  }

  lemma HitLeaves(s: State, dst: u32, hop: u32, proto: byte, payload: seq<byte>, now: u64, r: Answer, o: Out)
    requires |payload| <= 1500 && hop == NextHop(s.config, dst) && dst != IP_BCAST && hop != IP_BCAST
    requires r == Lookup(s.arp, hop, now) && r.mac.Some? && o == IpTx(s, dst, proto, payload, now)
    ensures SentAfter(s, r, o.state) && o.sent == [IpFrame(s.(arp := r.cache), r.mac.value, dst, proto, payload)]
  {}

  lemma MissLeaves(s: State, dst: u32, hop: u32, proto: byte, payload: seq<byte>, now: u64, r: Answer, o: Out)
    requires |payload| <= 1500 && hop == NextHop(s.config, dst) && dst != IP_BCAST && hop != IP_BCAST
    requires r == Lookup(s.arp, hop, now) && r.mac.None? && o == IpTx(s, dst, proto, payload, now)
    ensures SentAfter(s, r, o.state)
    ensures o.sent == [ArpRequest(s.(arp := r.cache), hop).sent[0], IpFrame(s.(arp := r.cache), BCAST_MAC, dst, proto, payload)]
  {}

  /** A frame of the state after the lookup, read back. */
  lemma FrameLeaves(s: State, c: Cache, mac: Mac, dst: u32, proto: byte, payload: seq<byte>, f: Frame)
    requires |payload| <= 1500 && f == IpFrame(s.(arp := c), mac, dst, proto, payload)
    ensures IsIp(f, s, dst, proto, payload) && f[..6] == mac && HasHeader(f, s.ipId)
  {
    var s1 := s.(arp := c);
    EmitIsIp(s1, mac, dst, proto, payload);
    IpFrameFields(s1, mac, dst, proto, payload);
    FrameRest(s1, mac, dst, proto, payload);
    SameSender(f, s1, s, dst, proto, payload);
  }

  /** A resolved next hop gets the frame itself; for an unresolved one a request goes out, and the
      frame to everyone behind it. */
  lemma UnicastLeaves(s: State, dst: u32, hop: u32, proto: byte, payload: seq<byte>, now: u64, r: Answer, o: Out)
    requires |payload| <= 1500 && IsHop(s.config, dst, hop) && dst != 0xFFFF_FFFF && hop != 0xFFFF_FFFF
    requires r == Lookup(s.arp, hop, now) && o == IpTx(s, dst, proto, payload, now)
    ensures SentAfter(s, r, o.state)
    ensures match r.mac
            case Some(mac) => |o.sent| == 1 && IsIp(o.sent[0], s, dst, proto, payload) && o.sent[0][..6] == mac
                              && HasHeader(o.sent[0], s.ipId)
            case None => && |o.sent| == 2 && AsksFor(o.sent[0], s, hop) && HasHeader(o.sent[1], s.ipId)
                         && IsIp(o.sent[1], s, dst, proto, payload) && o.sent[1][..6] == BCAST_MAC
  {
    HopIsRight(s.config, dst);
    if r.mac.Some? {
      HitLeaves(s, dst, hop, proto, payload, now, r, o);
      FrameLeaves(s, r.cache, r.mac.value, dst, proto, payload, o.sent[0]);
    } else {
      MissLeaves(s, dst, hop, proto, payload, now, r, o);
      RequestAsks(s.(arp := r.cache), hop);
      FrameLeaves(s, r.cache, BCAST_MAC, dst, proto, payload, o.sent[1]);
    }
  }

  lemma SameSender(f: Frame, s: State, s': State, dst: u32, proto: byte, payload: seq<byte>)
    requires IsIp(f, s, dst, proto, payload) && s'.config == s.config && s'.mac == s.mac
    ensures IsIp(f, s', dst, proto, payload)
  {}
}
