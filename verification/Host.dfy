/** The state of one network daemon: g_net of include/netd.h, plus the IP identification counter. */
module Host {
  import opened Bytes
  import opened ArpCache

  const IP_BCAST := 0xFFFF_FFFF
  const BCAST_MAC: Mac := [0xFF, 0xFF, 0xFF, 0xFF, 0xFF, 0xFF]
  const ETHERTYPE_ARP := 0x0806
  const ETHERTYPE_IP := 0x0800
  const UDP_SLOTS := 16
  const UDP_BUF := 2048

  type Frame = seq<byte>

  datatype DhcpPhase = Idle | Discover | Offer | Request | Bound | Failed

  /** One UDP binding; `data` is the waiting datagram, empty when none waits. */
  datatype UdpBind = UdpBind(port: u16, data: seq<byte>, srcIp: u32, srcPort: u16, used: bool)

  datatype Config = Config(ip: u32, netmask: u32, gateway: u32, dns: u32)

  datatype Ping = Ping(id: u16, seqNo: u16, replyIp: u32, replied: bool)

  /** dns_done is 0 while a query is open, 1 after an answer, -1 after a failure. */
  datatype DnsState = DnsState(txid: u16, result: u32, done: int)

  datatype State = State(
    mac: Mac,
    config: Config,
    phase: DhcpPhase,
    xid: u32,
    server: u32,
    arp: Cache,
    udp: seq<UdpBind>,
    ping: Ping,
    dns: DnsState,
    ipId: u16
  )

  /** What an operation leaves behind, and the frames it sends, in order. */
  datatype Out = Out(state: State, sent: seq<Frame>)

  /** Do one thing, then another. */
  function Then(a: Out, b: Out): (r: Out) { Out(b.state, a.sent + b.sent) }

  ghost predicate PortsUnique(binds: seq<UdpBind>) {
    forall i, j :: 0 <= i < j < |binds| && binds[i].used && binds[j].used ==> binds[i].port != binds[j].port
  }

  ghost predicate WellFormed(s: State) {
    Unique(s.arp) && |s.udp| == UDP_SLOTS && PortsUnique(s.udp)
  }

  class NetState {
    const mac: Mac
    var config: Config
    var phase: DhcpPhase
    var xid: u32
    var server: u32
    const arpCache: array<Entry>
    const udpBinds: array<UdpBind>
    var ping: Ping
    var dns: DnsState
    var ipId: u16
    ghost var sent: seq<Frame>

    ghost predicate Valid()
      reads this, arpCache, udpBinds
    {
      arpCache.Length == SLOTS && udpBinds.Length == UDP_SLOTS && WellFormed(Snapshot())
    }

    ghost function Snapshot(): (r: State)
      reads this, arpCache, udpBinds
      requires arpCache.Length == SLOTS
    {
      State(mac, config, phase, xid, server, arpCache[..], udpBinds[..], ping, dns, ipId)
    }

    /** All of g_net zeroed except the hardware address; ip.c starts its counter at 1. */
    constructor (mac: Mac)
      ensures Valid() && sent == []
      ensures fresh(arpCache) && fresh(udpBinds)
      ensures Snapshot() == InitialState(mac)
    {
      this.mac := mac;
      config := Config(0, 0, 0, 0);
      phase, xid, server := Idle, 0, 0;
      arpCache := new Entry[SLOTS](_ => EmptyEntry);
      udpBinds := new UdpBind[UDP_SLOTS](_ => EmptyBind);
      ping := Ping(0, 0, 0, false);
      dns := DnsState(0, 0, 0);
      ipId := 1;
      sent := [];
      new;
      assert arpCache[..] == EmptyCache();
      assert udpBinds[..] == seq(UDP_SLOTS, _ => EmptyBind);
    }

    /** driver_tx: hand a frame to the device. */
    method DriverTx(frame: Frame)
      modifies this`sent
      ensures sent == old(sent) + [frame]
    {
      sent := sent + [frame];
    }
  }

  const EmptyBind := UdpBind(0, [], 0, 0, false)

  function InitialState(mac: Mac): (r: State) {
    State(mac, Config(0, 0, 0, 0), Idle, 0, 0, EmptyCache(), seq(UDP_SLOTS, _ => EmptyBind),
          Ping(0, 0, 0, false), DnsState(0, 0, 0), 1)
  }
}
