/** src/icmp.c: answering echo requests, and the daemon's own pings. */
module Icmp {
  import opened Bytes
  import opened Checksum
  import opened Host
  import opened Ip

  const PROTO_ICMP := 1
  const ECHO_REQUEST := 8
  const ECHO_REPLY := 0

  function Truncated(data: seq<byte>): (r: seq<byte>) {
    if |data| > IP_MAX_PAYLOAD then data[..IP_MAX_PAYLOAD] else data
  }

  /** The request with type, code and checksum cleared. */
  function BareReply(data: seq<byte>): (r: seq<byte>)
    requires |data| >= 8
    ensures |r| == |Truncated(data)|
  {
    Overlay(Truncated(data), 0, [ECHO_REPLY, 0, 0, 0])
  }

  function EchoReply(data: seq<byte>): (r: seq<byte>)
    requires |data| >= 8
    ensures |r| == |Truncated(data)| <= IP_MAX_PAYLOAD
  {
    Overlay(BareReply(data), 2, BE16(Cksum(BareReply(data))))
  }

  /** A reply passes the checksum test and returns identifier, sequence number and data. */
  lemma EchoReplyIsFaithful(data: seq<byte>)
    requires |data| >= 8
    ensures Verifies(EchoReply(data)) && EchoReply(data)[0] == 0 && EchoReply(data)[1] == 0
    ensures |EchoReply(data)| == if |data| > 1500 then 1500 else |data|
    ensures EchoReply(data)[4..] == data[4..|EchoReply(data)|]
  {
    StoredChecksumVerifies(BareReply(data), 2);
  }

  const NETDPING: seq<byte> := [78, 69, 84, 68, 80, 73, 78, 71]

  function BarePing(id: u16, seqNo: u16): (p: seq<byte>)
    ensures |p| == 16 && p[2] == 0 && p[3] == 0
  {
    [ECHO_REQUEST, 0, 0, 0] + BE16(id) + BE16(seqNo) + NETDPING
  }

  function PingMessage(id: u16, seqNo: u16): (p: seq<byte>)
    ensures |p| == 16
  {
    Overlay(BarePing(id, seqNo), 2, BE16(Cksum(BarePing(id, seqNo))))
  }

  lemma PingMessageFields(id: u16, seqNo: u16)
    ensures var p := PingMessage(id, seqNo);
            Verifies(p) && p[0] == 8 && p[1] == 0 && Get16(p, 4) == id && Get16(p, 6) == seqNo && p[8..] == NETDPING
  {
    var b := BarePing(id, seqNo);
    StoredChecksumVerifies(b, 2);
    var z: seq<byte> := [ECHO_REQUEST, 0, 0, 0];
    assert b == z + BE16(id) + (BE16(seqNo) + NETDPING) && b == (z + BE16(id)) + BE16(seqNo) + NETDPING;
    Get16BE(z, id, BE16(seqNo) + NETDPING);
    Get16BE(z + BE16(id), seqNo, NETDPING);
  }

  /** icmp_rx */
  function IcmpRx(s: State, src: u32, data: seq<byte>, now: u64): (r: Out) {
    if |data| < 8 then Out(s, [])
    else if data[0] == ECHO_REQUEST then IpTx(s, src, PROTO_ICMP, EchoReply(data), now)
    else if data[0] == ECHO_REPLY && Get16(data, 4) == s.ping.id && Get16(data, 6) == s.ping.seqNo then
      Out(s.(ping := s.ping.(replyIp := src, replied := true)), [])
    else Out(s, [])
  }

  /** icmp_ping */
  function IcmpPing(s: State, dst: u32, id: u16, seqNo: u16, now: u64): (r: Out) {
    IpTx(s.(ping := s.ping.(id := id, seqNo := seqNo, replied := false)), dst, PROTO_ICMP, PingMessage(id, seqNo), now)
  }

  // ---------------------------------------------------------------- the code

  method RunIcmpRx(g: NetState, src: u32, data: seq<byte>, now: u64)
    requires g.Valid()
    modifies g`sent, g`ipId, g`ping, g.arpCache
    ensures g.Valid()
    ensures var r := IcmpRx(old(g.Snapshot()), src, data, now);
            g.Snapshot() == r.state && g.sent == old(g.sent) + r.sent
  {
    if |data| < 8 { return; }
    if data[0] == ECHO_REQUEST {
      var reply := BuildReply(data);
      RunIpTx(g, src, PROTO_ICMP, reply, now);
      return;
    }
    if data[0] == ECHO_REPLY {
      if Get16(data, 4) == g.ping.id && Get16(data, 6) == g.ping.seqNo {
        g.ping := g.ping.(replyIp := src, replied := true);
      }
    }
  }

  /** The three stores over the copied request clear type, code and checksum. */
  lemma ReplyIsPatched(t: seq<byte>)
    requires |t| >= 8
    ensures Overlay(t[0 := ECHO_REPLY][1 := 0], 2, [0, 0]) == Overlay(t, 0, [ECHO_REPLY, 0, 0, 0])
  {}

  /** The reply buffer of icmp_rx: a copy of the request, patched in place. */
  method BuildReply(data: seq<byte>) returns (r: seq<byte>)
    requires |data| >= 8
    ensures r == EchoReply(data)
  {
    var len := |data|;
    if len > IP_MAX_PAYLOAD { len := IP_MAX_PAYLOAD; }
    var reply := new byte[len](_ => 0);
    Append(reply, 0, data[..len]);
    assert reply[..] == reply[..len] == Truncated(data);
    reply[0] := ECHO_REPLY;
    reply[1] := 0;
    Put(reply, 2, [0, 0]);
    ReplyIsPatched(Truncated(data));
    assert reply[..] == BareReply(data);
    var c := InetCksum(reply[..]);
    Put(reply, 2, BE16(c));
    return reply[..];
  }

  method RunIcmpPing(g: NetState, dst: u32, id: u16, seqNo: u16, now: u64)
    requires g.Valid()
    modifies g`sent, g`ipId, g`ping, g.arpCache
    ensures g.Valid()
    ensures var r := IcmpPing(old(g.Snapshot()), dst, id, seqNo, now);
            g.Snapshot() == r.state && g.sent == old(g.sent) + r.sent
  {
    var pkt := new byte[16](_ => 0);
    Append(pkt, 0, [ECHO_REQUEST, 0, 0, 0]);
    Append(pkt, 4, BE16(id));
    Append(pkt, 6, BE16(seqNo));
    Append(pkt, 8, NETDPING);
    assert pkt[..] == pkt[..16] == BarePing(id, seqNo);
    var c := InetCksum(pkt[..]);
    Put(pkt, 2, BE16(c));
    g.ping := g.ping.(id := id, seqNo := seqNo, replied := false);
    RunIpTx(g, dst, PROTO_ICMP, pkt[..], now);
  }
}
