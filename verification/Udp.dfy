/** src/udp.c: the port table, and sending datagrams. */
module Udp {
  import opened Bytes
  import opened Host
  import opened Ip

  const PROTO_UDP := 17
  const UDP_MAX_DATA := 1472

  predicate Serves(b: UdpBind, port: u16) { b.used && b.port == port }

  /** The first slot bound to the port, or |binds|. */
  function FindPort(binds: seq<UdpBind>, port: u16): (k: nat)
    ensures k <= |binds|
    ensures forall j :: 0 <= j < k ==> !Serves(binds[j], port)
    ensures k < |binds| ==> Serves(binds[k], port)
  {
    if binds == [] || Serves(binds[0], port) then 0 else 1 + FindPort(binds[1..], port)
  }

  function FirstUnused(binds: seq<UdpBind>): (k: nat)
    ensures k <= |binds|
    ensures forall j :: 0 <= j < k ==> binds[j].used
    ensures k < |binds| ==> !binds[k].used
  {
    if binds == [] || !binds[0].used then 0 else 1 + FirstUnused(binds[1..])
  }

  /** udp_bind; None when the table is full. */
  function BindPort(binds: seq<UdpBind>, port: u16): (r: Option<seq<UdpBind>>) {
    if FindPort(binds, port) < |binds| then Some(binds)
    else
      var k := FirstUnused(binds);
      if k < |binds| then Some(binds[k := UdpBind(port, [], 0, 0, true)]) else None
  }

  /** udp_unbind */
  function UnbindPort(binds: seq<UdpBind>, port: u16): (r: seq<UdpBind>) {
    var k := FindPort(binds, port);
    if k < |binds| then binds[k := binds[k].(used := false)] else binds
  }

  function Clipped(data: seq<byte>, max: nat): (r: seq<byte>)
    ensures |r| == (if |data| < max then |data| else max) && r == data[..|r|]
  {
    if |data| < max then data else data[..max]
  }

  /** The delivery loop of udp_rx. */
  function Deliver(binds: seq<UdpBind>, port: u16, data: seq<byte>, srcIp: u32, srcPort: u16): (r: seq<UdpBind>) {
    var k := FindPort(binds, port);
    if k < |binds| then binds[k := UdpBind(port, Clipped(data, UDP_BUF), srcIp, srcPort, true)] else binds
  }

  datatype Datagram = Datagram(data: seq<byte>, srcIp: u32, srcPort: u16)

  datatype Received = Received(datagram: Option<Datagram>, binds: seq<UdpBind>)

  /** udp_recv with room for max bytes. */
  function Recv(binds: seq<UdpBind>, port: u16, max: nat): (r: Received) {
    var k := FindPort(binds, port);
    if k < |binds| && binds[k].data != [] then
      Received(Some(Datagram(Clipped(binds[k].data, max), binds[k].srcIp, binds[k].srcPort)), binds[k := binds[k].(data := [])])
    else Received(None, binds)
  }

  // ---------------------------------------------------------------- the table as a map

  datatype Mailbox = Unbound | Empty | Waiting(datagram: Datagram)

  /** The table seen through one port. */
  function Box(binds: seq<UdpBind>, port: u16): (r: Mailbox) {
    var k := FindPort(binds, port);
    if k == |binds| then Unbound
    else if binds[k].data == [] then Empty
    else Waiting(Datagram(binds[k].data, binds[k].srcIp, binds[k].srcPort))
  }

  ghost predicate Table(binds: seq<UdpBind>) { |binds| == UDP_SLOTS && PortsUnique(binds) }

  lemma BoxOfSlot(binds: seq<UdpBind>, k: nat, port: u16)
    requires PortsUnique(binds) && k < |binds| && Serves(binds[k], port)
    ensures FindPort(binds, port) == k
  {}

  /** Changing one slot to serve `port` touches no other port's mailbox. */
  lemma OtherBoxes(binds: seq<UdpBind>, k: nat, b: UdpBind, other: u16)
    requires PortsUnique(binds) && k < |binds|
    requires !Serves(b, other) && !Serves(binds[k], other)
    ensures Box(binds[k := b], other) == Box(binds, other)
  {
    var c := binds[k := b];
    var i, j := FindPort(binds, other), FindPort(c, other);
    assert i < |binds| ==> Serves(c[i], other);
    assert j < |c| ==> Serves(binds[j], other);
  }

  /** bind: nothing changes for a bound port; otherwise the port gets an empty mailbox, whatever
      the slot held before, and no other mailbox changes; it fails only when sixteen ports are bound. */
  lemma BindLaw(binds: seq<UdpBind>, port: u16)
    requires Table(binds)
    ensures BindPort(binds, port).None? <==> Box(binds, port).Unbound? && forall i :: 0 <= i < UDP_SLOTS ==> binds[i].used
    ensures BindPort(binds, port).Some? ==>
              var c := BindPort(binds, port).value;
              Table(c) && Box(c, port) == (if Box(binds, port).Unbound? then Empty else Box(binds, port))
              && (forall q: u16 :: q != port ==> Box(c, q) == Box(binds, q))
              && BindPort(c, port) == Some(c)
  {
    var k := FirstUnused(binds);
    if Box(binds, port).Unbound? && k < |binds| {
      var b := UdpBind(port, [], 0, 0, true);
      var c := binds[k := b];
      assert forall i :: 0 <= i < |binds| ==> !Serves(binds[i], port);
      BoxOfSlot(c, k, port);
      forall q: u16 | q != port ensures Box(c, q) == Box(binds, q) { OtherBoxes(binds, k, b, q); }
    }
  }

  lemma UnbindLaw(binds: seq<UdpBind>, port: u16)
    requires Table(binds)
    ensures var c := UnbindPort(binds, port);
            Table(c) && Box(c, port) == Unbound && forall q: u16 :: q != port ==> Box(c, q) == Box(binds, q)
  {
    var k := FindPort(binds, port);
    if k < |binds| {
      var c := UnbindPort(binds, port);
      assert FindPort(c, port) == |c| by {
        assert forall i :: 0 <= i < |binds| && i != k ==> !Serves(binds[i], port);
      }
      forall q: u16 | q != port ensures Box(c, q) == Box(binds, q) { OtherBoxes(binds, k, c[k], q); }
    }
  }

  /** deliver: a bound port's mailbox holds the new datagram and no older one. */
  lemma DeliverLaw(binds: seq<UdpBind>, port: u16, data: seq<byte>, srcIp: u32, srcPort: u16)
    requires Table(binds) && data != []
    ensures var c := Deliver(binds, port, data, srcIp, srcPort);
            Table(c) && (forall q: u16 :: q != port ==> Box(c, q) == Box(binds, q))
            && Box(c, port) == (if Box(binds, port).Unbound? then Unbound
                                else Waiting(Datagram(Clipped(data, 2048), srcIp, srcPort)))
  {
    var k := FindPort(binds, port);
    if k < |binds| {
      var c := Deliver(binds, port, data, srcIp, srcPort);
      BoxOfSlot(c, k, port);
      forall q: u16 | q != port ensures Box(c, q) == Box(binds, q) { OtherBoxes(binds, k, c[k], q); }
    }
  }

  /** recv: the waiting datagram, clipped to the caller's room, once. */
  lemma RecvLaw(binds: seq<UdpBind>, port: u16, max: nat)
    requires Table(binds)
    ensures var r := Recv(binds, port, max);
            Table(r.binds) && (forall q: u16 :: q != port ==> Box(r.binds, q) == Box(binds, q))
            && (match Box(binds, port)
                case Waiting(d) => r.datagram == Some(d.(data := Clipped(d.data, max))) && Box(r.binds, port) == Empty
                case _ => r.datagram == None && r.binds == binds)
  {
    var k := FindPort(binds, port);
    if k < |binds| && binds[k].data != [] {
      var c := Recv(binds, port, max).binds;
      BoxOfSlot(c, k, port);
      forall q: u16 | q != port ensures Box(c, q) == Box(binds, q) { OtherBoxes(binds, k, c[k], q); }
    }
  }

  // ---------------------------------------------------------------- sending

  function UdpPacket(srcPort: u16, dstPort: u16, data: seq<byte>): (p: seq<byte>)
    requires |data| <= UDP_MAX_DATA
    ensures |p| == 8 + |data|
  {
    BE16(srcPort) + BE16(dstPort) + BE16(8 + |data|) + [0, 0] + data
  }

  /** udp_tx; nothing is sent when the data does not fit. */
  function UdpTx(s: State, dst: u32, srcPort: u16, dstPort: u16, data: seq<byte>, now: u64): (r: Out) {
    if |data| > UDP_MAX_DATA then Out(s, [])
    else IpTx(s, dst, PROTO_UDP, UdpPacket(srcPort, dstPort, data), now)
  }

  lemma UdpPacketFields(srcPort: u16, dstPort: u16, data: seq<byte>)
    requires |data| <= UDP_MAX_DATA
    ensures var p := UdpPacket(srcPort, dstPort, data);
            && Get16(p, 0) == srcPort && Get16(p, 2) == dstPort && Get16(p, 4) == 8 + |data|
            && p[6] == 0 && p[7] == 0 && p[8..] == data
  {
    var p := UdpPacket(srcPort, dstPort, data);
    var a, b, c := BE16(srcPort), BE16(dstPort), BE16(8 + |data|);
    assert p == [] + a + (b + c + [0, 0] + data);
    assert p == a + b + (c + [0, 0] + data);
    assert p == (a + b) + c + ([0, 0] + data);
    Get16BE([], srcPort, b + c + [0, 0] + data);
    Get16BE(a, dstPort, c + [0, 0] + data);
    Get16BE(a + b, 8 + |data|, [0, 0] + data);
  }

  // ---------------------------------------------------------------- the code

  method RunBind(g: NetState, port: u16) returns (ok: bool)
    requires g.Valid()
    modifies g.udpBinds
    ensures g.Valid()
    ensures var r := BindPort(old(g.udpBinds[..]), port);
            ok == r.Some? && g.Snapshot() == old(g.Snapshot()).(udp := if r.Some? then r.value else old(g.udpBinds[..]))
  {
    var a := g.udpBinds;
    ghost var c := a[..];
    for i := 0 to UDP_SLOTS
      invariant a[..] == c && forall j :: 0 <= j < i ==> !Serves(c[j], port)
    {
      if a[i].used && a[i].port == port { return true; }
    }
    for i := 0 to UDP_SLOTS
      invariant a[..] == c && forall j :: 0 <= j < i ==> c[j].used
    {
      if !a[i].used {
        a[i] := EmptyBind;
        a[i] := a[i].(port := port);
        a[i] := a[i].(used := true);
        assert a[..] == c[i := UdpBind(port, [], 0, 0, true)];
        return true;
      }
    }
    return false;
  }

  method RunUnbind(g: NetState, port: u16)
    requires g.Valid()
    modifies g.udpBinds
    ensures g.Valid() && g.Snapshot() == old(g.Snapshot()).(udp := UnbindPort(old(g.udpBinds[..]), port))
  {
    var a := g.udpBinds;
    ghost var c := a[..];
    for i := 0 to UDP_SLOTS
      invariant a[..] == c && forall j :: 0 <= j < i ==> !Serves(c[j], port)
    {
      if a[i].used && a[i].port == port {
        a[i] := a[i].(used := false);
        assert a[..] == c[i := c[i].(used := false)];
        return;
      }
    }
  }

  method RunDeliver(g: NetState, port: u16, data: seq<byte>, srcIp: u32, srcPort: u16)
    requires g.Valid()
    modifies g.udpBinds
    ensures g.Valid()
    ensures g.Snapshot() == old(g.Snapshot()).(udp := Deliver(old(g.udpBinds[..]), port, data, srcIp, srcPort))
  {
    var a := g.udpBinds;
    ghost var c := a[..];
    for i := 0 to UDP_SLOTS
      invariant a[..] == c && forall j :: 0 <= j < i ==> !Serves(c[j], port)
    {
      if a[i].used && a[i].port == port {
        var copy := if |data| < UDP_BUF then |data| else UDP_BUF;
        assert data[..copy] == Clipped(data, UDP_BUF);
        a[i] := a[i].(data := data[..copy], srcIp := srcIp, srcPort := srcPort);
        assert a[..] == c[i := UdpBind(port, Clipped(data, UDP_BUF), srcIp, srcPort, true)];
        return;
      }
    }
  }

  method RunRecv(g: NetState, port: u16, max: nat) returns (d: Option<Datagram>)
    requires g.Valid()
    modifies g.udpBinds
    ensures g.Valid()
    ensures var r := Recv(old(g.udpBinds[..]), port, max);
            d == r.datagram && g.Snapshot() == old(g.Snapshot()).(udp := r.binds)
  {
    var a := g.udpBinds;
    ghost var c := a[..];
    ghost var k := FindPort(c, port);
    for i := 0 to UDP_SLOTS
      invariant a[..] == c && (k < i ==> c[k].data == [])
    {
      if a[i].used && a[i].port == port && |a[i].data| > 0 {
        assert i == k;
        var copy := if |a[i].data| < max then |a[i].data| else max;
        assert a[i].data[..copy] == Clipped(a[i].data, max);
        d := Some(Datagram(a[i].data[..copy], a[i].srcIp, a[i].srcPort));
        a[i] := a[i].(data := []);
        assert a[..] == c[k := c[k].(data := [])];
        return;
      }
    }
    return None;
  }

  method RunUdpTx(g: NetState, dst: u32, srcPort: u16, dstPort: u16, data: seq<byte>, now: u64) returns (ok: bool)
    requires g.Valid()
    modifies g`sent, g`ipId, g.arpCache
    ensures g.Valid() && ok == (|data| <= UDP_MAX_DATA)
    ensures var r := UdpTx(old(g.Snapshot()), dst, srcPort, dstPort, data, now);
            g.Snapshot() == r.state && g.sent == old(g.sent) + r.sent
  {
    if |data| > UDP_MAX_DATA { return false; }
    var pkt := new byte[8 + |data|](_ => 0);
    Append(pkt, 0, BE16(srcPort));
    Append(pkt, 2, BE16(dstPort));
    Append(pkt, 4, BE16(8 + |data|));
    Append(pkt, 6, [0, 0]);
    Append(pkt, 8, data);
    assert pkt[..] == pkt[..8 + |data|] == UdpPacket(srcPort, dstPort, data);
    RunIpTx(g, dst, PROTO_UDP, pkt[..], now);
    return true;
  }
}
