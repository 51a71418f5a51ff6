/** src/arp.c: the cache operations on the live state, and the request/reply protocol of RFC 826. */
module Arp {
  import opened Bytes
  import opened ArpCache
  import opened Host

  const ARP_REQUEST := 1
  const ARP_REPLY := 2
  const ARP_LEN := 42

  function ArpFrame(op: u16, dst: Mac, src: Mac, srcIp: u32, dstIp: u32): (f: Frame)
    ensures |f| == ARP_LEN
  {
    ArpHead(op, dst, src) + ArpTail(src, srcIp, dst, dstIp)
  }

  // The fields arp_rx reads.
  function ArpOp(f: Frame): (r: u16) requires |f| >= ARP_LEN { Get16(f, 20) }
  function ArpSrcMac(f: Frame): (r: Mac) requires |f| >= ARP_LEN { f[22..28] }
  function ArpSrcIp(f: Frame): (r: u32) requires |f| >= ARP_LEN { Get32(f, 28) }
  function ArpDstIp(f: Frame): (r: u32) requires |f| >= ARP_LEN { Get32(f, 38) }

  /** The frame up to the operation, and from the sender's hardware address on. */
  function ArpHead(op: u16, dst: Mac, src: Mac): (p: seq<byte>)
    ensures |p| == 22
  {
    dst + src + BE16(ETHERTYPE_ARP) + BE16(1) + BE16(0x0800) + [6, 4] + BE16(op)
  }

  function ArpTail(src: Mac, srcIp: u32, dst: Mac, dstIp: u32): (p: seq<byte>)
    ensures |p| == 20
  {
    src + BE32(srcIp) + dst + BE32(dstIp)
  }

  lemma ArpHeadFields(op: u16, dst: Mac, src: Mac)
    ensures var p := ArpHead(op, dst, src);
            && Get16(p, 12) == 0x0806 && Get16(p, 20) == op && p[6..12] == src && p[..6] == dst
            && Get16(p, 14) == 1 && Get16(p, 16) == 0x0800 && p[18] == 6 && p[19] == 4
  {
    var q := BE16(1) + BE16(0x0800) + [6, 4];
    assert ArpHead(op, dst, src) == (dst + src) + BE16(ETHERTYPE_ARP) + (q + BE16(op));
    Get16BE(dst + src, ETHERTYPE_ARP, q + BE16(op));
    assert ArpHead(op, dst, src) == (dst + src + BE16(ETHERTYPE_ARP) + q) + BE16(op) + [];
    Get16BE(dst + src + BE16(ETHERTYPE_ARP) + q, op, []);
  }

  lemma ArpTailFields(src: Mac, srcIp: u32, dst: Mac, dstIp: u32)
    ensures var p := ArpTail(src, srcIp, dst, dstIp); p[..6] == src && Get32(p, 6) == srcIp && p[10..16] == dst && Get32(p, 16) == dstIp
  {
    assert ArpTail(src, srcIp, dst, dstIp) == src + BE32(srcIp) + (dst + BE32(dstIp));
    Get32BE(src, srcIp, dst + BE32(dstIp));
    assert ArpTail(src, srcIp, dst, dstIp) == (src + BE32(srcIp) + dst) + BE32(dstIp) + [];
    Get32BE(src + BE32(srcIp) + dst, dstIp, []);
  }

  /** Every field of a frame is read back as it was written. */
  lemma ArpFrameFields(op: u16, dst: Mac, src: Mac, srcIp: u32, dstIp: u32)
    ensures var f := ArpFrame(op, dst, src, srcIp, dstIp);
            && Get16(f, 12) == 0x0806 && ArpOp(f) == op && ArpSrcMac(f) == src
            && ArpSrcIp(f) == srcIp && ArpDstIp(f) == dstIp && f[6..12] == src && f[..6] == dst
            && Get16(f, 14) == 1 && Get16(f, 16) == 0x0800 && f[18] == 6 && f[19] == 4 && f[32..38] == dst
  {
    var f, p, q := ArpFrame(op, dst, src, srcIp, dstIp), ArpHead(op, dst, src), ArpTail(src, srcIp, dst, dstIp);
    ArpHeadFields(op, dst, src);
    ArpTailFields(src, srcIp, dst, dstIp);
    assert forall i :: 0 <= i < 22 ==> f[i] == p[i];
    assert forall i :: 0 <= i < 20 ==> f[22 + i] == q[i];
    assert f[32..38] == q[10..16];
    assert f[22..28] == q[..6] && f[6..12] == p[6..12] && f[..6] == p[..6];
  }

  function ArpAnnounce(s: State): (r: Out) {
    Out(s, [ArpFrame(ARP_REQUEST, BCAST_MAC, s.mac, s.config.ip, s.config.ip)])
  }

  function ArpRequest(s: State, ip: u32): (r: Out) {
    Out(s, [ArpFrame(ARP_REQUEST, BCAST_MAC, s.mac, s.config.ip, ip)])
  }

  function LearnSender(s: State, ip: u32, mac: Mac, now: u64): (r: State) {
    s.(arp := Learn(s.arp, ip, mac, now))
  }

  /** arp_rx: learn the sender; answer a request for our own address. */
  function ArpRx(s: State, f: Frame, now: u64): (r: Out) {
    if |f| < ARP_LEN then Out(s, [])
    else
      var s1 := if ArpSrcIp(f) != 0 then LearnSender(s, ArpSrcIp(f), ArpSrcMac(f), now) else s;
      if ArpOp(f) == ARP_REQUEST && ArpDstIp(f) == s.config.ip && s.config.ip != 0 then
        Out(s1, [ArpFrame(ARP_REPLY, ArpSrcMac(f), s.mac, s.config.ip, ArpSrcIp(f))])
      else Out(s1, [])
  }

  // ---------------------------------------------------------------- the code

  method RunLearn(g: NetState, ip: u32, mac: Mac, now: u64)
    requires g.Valid()
    modifies g.arpCache
    ensures g.Valid() && g.Snapshot() == LearnSender(old(g.Snapshot()), ip, mac, now)
  {
    LearnKeepsUnique(g.arpCache[..], ip, mac, now);
    var a := g.arpCache;
    ghost var c := a[..];
    for i := 0 to SLOTS
      invariant a[..] == c && forall j :: 0 <= j < i ==> !Holds(c[j], ip)
    {
      if a[i].valid && a[i].ip == ip {
        a[i] := a[i].(mac := mac, ts := now);
        assert a[..] == c[i := c[i].(mac := mac, ts := now)];
        return;
      }
    }
    var slot := VictimSlot(g);
    a[slot] := Entry(ip, mac, now, true);
    assert a[..] == c[slot := Entry(ip, mac, now, true)];
  }

  /** The search of arp_learn for an empty or the oldest slot. */
  method VictimSlot(g: NetState) returns (slot: nat)
    requires g.Valid()
    ensures slot == Victim(g.arpCache[..])
  {
    var a := g.arpCache;
    ghost var c := a[..];
    slot := 0;
    var oldest: u64 := CLOCK - 1;
    for i := 0 to SLOTS
      invariant slot < SLOTS
      invariant forall j :: 0 <= j < i ==> c[j].valid
      invariant forall j :: 0 <= j < i ==> oldest <= c[j].ts
      invariant if oldest == CLOCK - 1 then slot == 0
                else slot < i && c[slot].ts == oldest && forall j :: 0 <= j < slot ==> oldest < c[j].ts
    {
      if !a[i].valid { return i; }
      if a[i].ts < oldest {
        oldest := a[i].ts;
        slot := i;
      }
    }
  }

  method RunLookup(g: NetState, ip: u32, now: u64) returns (mac: Option<Mac>)
    requires g.Valid()
    modifies g.arpCache
    ensures var r := Lookup(old(g.arpCache[..]), ip, now);
            mac == r.mac && g.Valid() && g.Snapshot() == old(g.Snapshot()).(arp := r.cache)
  {
    var a := g.arpCache;
    ghost var c := a[..];
    ghost var k := Find(c, ip);
    for i := 0 to SLOTS
      invariant i <= k ==> a[..] == c
      invariant i > k ==> !Fresh(c[k], now) && a[..] == c[k := c[k].(valid := false)]
    {
      if a[i].valid && a[i].ip == ip {
        assert i == k;
        if Age(now, a[i].ts) < TIMEOUT_MS { return Some(a[i].mac); }
        a[i] := a[i].(valid := false);
      }
    }
    return None;
  }

  method RunArpSend(g: NetState, op: u16, dst: Mac, srcIp: u32, dstIp: u32)
    requires g.Valid()
    modifies g`sent
    ensures g.sent == old(g.sent) + [ArpFrame(op, dst, g.mac, srcIp, dstIp)]
  {
    var frame := new byte[ARP_LEN](_ => 0);
    Append(frame, 0, dst);
    Append(frame, 6, g.mac);
    assert frame[..12] == dst + g.mac;
    Append(frame, 12, BE16(ETHERTYPE_ARP));
    Append(frame, 14, BE16(1));
    Append(frame, 16, BE16(0x0800));
    Append(frame, 18, [6, 4]);
    Append(frame, 20, BE16(op));
    assert frame[..22] == ArpHead(op, dst, g.mac);
    Append(frame, 22, g.mac);
    Append(frame, 28, BE32(srcIp));
    Append(frame, 32, dst);
    Append(frame, 38, BE32(dstIp));
    ghost var h := ArpHead(op, dst, g.mac);
    assert frame[..] == frame[..ARP_LEN] == h + g.mac + BE32(srcIp) + dst + BE32(dstIp);
    Regroup(h, g.mac, BE32(srcIp));
    Regroup(h, g.mac + BE32(srcIp), dst);
    Regroup(h, g.mac + BE32(srcIp) + dst, BE32(dstIp));
    g.DriverTx(frame[..]);
  }

  method RunArpAnnounce(g: NetState)
    requires g.Valid()
    modifies g`sent
    ensures g.sent == old(g.sent) + ArpAnnounce(g.Snapshot()).sent
  {
    RunArpSend(g, ARP_REQUEST, BCAST_MAC, g.config.ip, g.config.ip);
  }

  method RunArpRequest(g: NetState, ip: u32)
    requires g.Valid()
    modifies g`sent
    ensures g.sent == old(g.sent) + ArpRequest(g.Snapshot(), ip).sent
  {
    RunArpSend(g, ARP_REQUEST, BCAST_MAC, g.config.ip, ip);
  }

  method RunArpRx(g: NetState, frame: Frame, now: u64)
    requires g.Valid()
    modifies g`sent, g.arpCache
    ensures g.Valid()
    ensures var r := ArpRx(old(g.Snapshot()), frame, now);
            g.Snapshot() == r.state && g.sent == old(g.sent) + r.sent
  {
    if |frame| < ARP_LEN { return; }
    var op := Get16(frame, 20);
    var srcIp := Get32(frame, 28);
    var dstIp := Get32(frame, 38);
    var srcMac := frame[22..28];
    if srcIp != 0 { RunLearn(g, srcIp, srcMac, now); }
    if op == ARP_REQUEST && dstIp == g.config.ip && g.config.ip != 0 {
      RunArpSend(g, ARP_REPLY, srcMac, g.config.ip, srcIp);
    }
  }
}
