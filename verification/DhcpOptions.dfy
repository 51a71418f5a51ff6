/** DHCP options: the type-length-value lists of RFC 2132, section 2, and the readers of src/dhcp.c. */
module DhcpOptions {
  import opened Bytes

  const OPT_PAD := 0
  const OPT_SUBNET := 1
  const OPT_ROUTER := 3
  const OPT_DNS := 6
  const OPT_REQ_IP := 50
  const OPT_MSG_TYPE := 53
  const OPT_SERVER_ID := 54
  const OPT_END := 255

  /** Bytes behind the end of the packet read as zero. */
  function At(o: seq<byte>, i: nat): (r: byte) { if i < |o| then o[i] else 0 }

  function At32(o: seq<byte>, i: nat): (r: u32) {
    (Pair(At(o, i), At(o, i + 1)) as int) * 0x1_0000 + Pair(At(o, i + 2), At(o, i + 3))
  }

  /** Where the value of the first option with this tag and at least `min` bytes starts. */
  function Seek(o: seq<byte>, tag: byte, min: nat, i: nat): (r: int)
    ensures r == -1 || r >= i + 2
    decreases |o| - i
  {
    if i >= |o| || o[i] == OPT_END then -1
    else if o[i] == OPT_PAD then Seek(o, tag, min, i + 1)
    else if i + 1 >= |o| then -1
    else if o[i] == tag && o[i + 1] >= min then i + 2
    else Seek(o, tag, min, i + 2 + o[i + 1])
  }

  /** dhcp_get_opt32 */
  function GetOpt32(o: seq<byte>, tag: byte): (r: u32) {
    var i := Seek(o, tag, 4, 0);
    if i == -1 then 0 else At32(o, i)
  }

  /** dhcp_get_msg_type */
  function GetMsgType(o: seq<byte>): (r: byte) {
    var i := Seek(o, OPT_MSG_TYPE, 1, 0);
    if i == -1 then 0 else At(o, i)
  }

  // ---------------------------------------------------------------- lists of options

  datatype Item = Pad | Option(tag: byte, value: seq<byte>)

  predicate ValidItem(it: Item) {
    it.Option? ==> it.tag != 0 && it.tag != 255 && |it.value| < 0x100
  }

  function EncodeItem(it: Item): (r: seq<byte>)
    requires ValidItem(it)
  {
    match it
    case Pad => [0]
    case Option(tag, value) => [tag, |value|] + value
  }

  ghost predicate ValidItems(items: seq<Item>) {
    forall i :: 0 <= i < |items| ==> ValidItem(items[i])
  }

  ghost function Encode(items: seq<Item>): (r: seq<byte>)
    requires ValidItems(items)
  {
    if items == [] then [] else EncodeItem(items[0]) + Encode(items[1..])
  }

  /** The first option with this tag and at least min bytes, or []. */
  function First(items: seq<Item>, tag: byte, min: nat): (r: seq<byte>) {
    if items == [] then []
    else if Qualifies(items[0], tag, min) then items[0].value
    else First(items[1..], tag, min)
  }

  /** The reader takes one item per turn. */
  lemma SeekSteps(o: seq<byte>, k: nat, it: Item, tag: byte, min: nat)
    requires ValidItem(it) && tag != OPT_PAD && tag != OPT_END
    requires k + |EncodeItem(it)| <= |o| && o[k..k + |EncodeItem(it)|] == EncodeItem(it)
    ensures Seek(o, tag, min, k) ==
            if it.Option? && it.tag == tag && |it.value| >= min then k + 2 else Seek(o, tag, min, k + |EncodeItem(it)|)
  {
    var e := EncodeItem(it);
    assert o[k..k + |e|][0] == o[k];
    if it.Option? { assert o[k..k + |e|][1] == o[k + 1]; }
  }

  /** i is where value v sits in o, or -1 when there is none. */
  ghost predicate Sought(o: seq<byte>, i: int, v: seq<byte>, min: nat) {
    if v == [] then i == -1 else 0 <= i <= |o| - |v| && |v| >= min && o[i..i + |v|] == v
  }

  /** From position k on, o is this list, the END tag, and anything. */
  ghost predicate ListAt(o: seq<byte>, k: nat, items: seq<Item>, rest: seq<byte>) {
    ValidItems(items) && k <= |o| && o[k..] == Encode(items) + [OPT_END] + rest
  }

  lemma Sliced(o: seq<byte>, k: nat, e: seq<byte>, q: seq<byte>)
    requires k <= |o| && o[k..] == e + q
    ensures k + |e| <= |o| && o[k..k + |e|] == e && o[k + |e|..] == q
  {
    assert |o[k..]| == |e| + |q|;
    assert o[k..k + |e|] == o[k..][..|e|] && o[k + |e|..] == o[k..][|e|..];
  }

  lemma ListStep(o: seq<byte>, k: nat, items: seq<Item>, rest: seq<byte>, n: nat, later: seq<Item>)
    requires ListAt(o, k, items, rest) && items != [] && n == k + |EncodeItem(items[0])| && later == items[1..]
    ensures n <= |o| && o[k..n] == EncodeItem(items[0]) && ListAt(o, n, later, rest)
  {
    var e, q := EncodeItem(items[0]), Encode(later);
    assert Encode(items) == e + q;
    Regroup(e, q, [OPT_END]);
    Regroup(e, q + [OPT_END], rest);
    Sliced(o, k, e, q + [OPT_END] + rest);
  }

  lemma ValueInItem(o: seq<byte>, k: nat, it: Item)
    requires ValidItem(it) && it.Option?
    requires k + |EncodeItem(it)| <= |o| && o[k..k + |EncodeItem(it)|] == EncodeItem(it)
    ensures o[k + 2..k + 2 + |it.value|] == it.value
  {
    assert o[k + 2..k + 2 + |it.value|] == o[k..k + |EncodeItem(it)|][2..];
  }

  lemma SeekAtEnd(o: seq<byte>, k: nat, rest: seq<byte>, tag: byte, min: nat)
    requires ListAt(o, k, [], rest)
    ensures Seek(o, tag, min, k) == -1
  {
    assert o[k..] == [OPT_END] + rest;
    assert o[k] == o[k..][0];
  }

  predicate Qualifies(it: Item, tag: byte, min: nat) {
    it.Option? && it.tag == tag && |it.value| >= min
  }

  /** The reader stops at a qualifying item, and its value is there. */
  lemma SeekStops(o: seq<byte>, k: nat, items: seq<Item>, rest: seq<byte>, tag: byte, min: nat)
    requires ListAt(o, k, items, rest) && items != [] && tag != OPT_PAD && tag != OPT_END && min > 0
    requires Qualifies(items[0], tag, min)
    ensures Sought(o, Seek(o, tag, min, k), items[0].value, min)
  {
    ListStep(o, k, items, rest, k + |EncodeItem(items[0])|, items[1..]);
    SeekSteps(o, k, items[0], tag, min);
    ValueInItem(o, k, items[0]);
  }

  lemma SeekSkips(o: seq<byte>, k: nat, items: seq<Item>, rest: seq<byte>, tag: byte, min: nat, n: nat, later: seq<Item>)
    requires ListAt(o, k, items, rest) && items != [] && tag != OPT_PAD && tag != OPT_END && min > 0
    requires !Qualifies(items[0], tag, min) && n == k + |EncodeItem(items[0])| && later == items[1..]
    ensures ListAt(o, n, later, rest) && Seek(o, tag, min, k) == Seek(o, tag, min, n) && First(items, tag, min) == First(later, tag, min)
  {
    ListStep(o, k, items, rest, n, later);
    SeekSteps(o, k, items[0], tag, min);
  }

  /** On a well-formed list the reader stops exactly at the first option that qualifies. */
  lemma {:induction false} SeekFindsFirst(o: seq<byte>, k: nat, items: seq<Item>, rest: seq<byte>, tag: byte, min: nat)
    requires ListAt(o, k, items, rest) && tag != OPT_PAD && tag != OPT_END && min > 0
    ensures Sought(o, Seek(o, tag, min, k), First(items, tag, min), min)
    decreases |items|
  {
    if items == [] {
      SeekAtEnd(o, k, rest, tag, min);
    } else if Qualifies(items[0], tag, min) {
      SeekStops(o, k, items, rest, tag, min);
    } else {
      var n, later := k + |EncodeItem(items[0])|, items[1..];
      SeekSkips(o, k, items, rest, tag, min, n, later);
      SeekFindsFirst(o, n, later, rest, tag, min);
    }
  }

  lemma SoughtAt(o: seq<byte>, i: int, v: seq<byte>, min: nat)
    requires Sought(o, i, v, min) && v != [] && min > 0
    ensures At(o, i) == v[0] && (min >= 4 ==> At32(o, i) == At32(v, 0))
  {
    assert forall j :: 0 <= j < |v| ==> v[j] == o[i..i + |v|][j];
  }

  /** dhcp_get_opt32 returns the first option with the tag and at least four bytes, or 0;
      dhcp_get_msg_type likewise with one byte. */
  lemma ReadersMeetSpec(items: seq<Item>, rest: seq<byte>, tag: byte)
    requires ValidItems(items) && tag != 0 && tag != 255
    ensures var o := Encode(items) + [255] + rest;
            && GetOpt32(o, tag) == (if First(items, tag, 4) == [] then 0 else At32(First(items, tag, 4), 0))
            && GetMsgType(o) == (if First(items, 53, 1) == [] then 0 else First(items, 53, 1)[0])
  {
    var o := Encode(items) + [OPT_END] + rest;
    assert o[0..] == o;
    SeekFindsFirst(o, 0, items, rest, tag, 4);
    SeekFindsFirst(o, 0, items, rest, OPT_MSG_TYPE, 1);
    var v, w := First(items, tag, 4), First(items, OPT_MSG_TYPE, 1);
    if v != [] { SoughtAt(o, Seek(o, tag, 4, 0), v, 4); }
    if w != [] { SoughtAt(o, Seek(o, OPT_MSG_TYPE, 1, 0), w, 1); }
  }

  // ---------------------------------------------------------------- what dhcp_send writes

  const DHCP_REQUEST := 3

  function AddressOption(tag: byte, ip: u32): (r: seq<byte>) {
    if ip == 0 then [] else [tag, 4] + BE32(ip)
  }

  /** The options of a client message: its type and, in a REQUEST, the addresses that are not 0. */
  function ClientOptions(msgType: byte, reqIp: u32, serverId: u32): (r: seq<byte>) {
    [OPT_MSG_TYPE, 1, msgType]
    + (if msgType == DHCP_REQUEST then AddressOption(OPT_REQ_IP, reqIp) + AddressOption(OPT_SERVER_ID, serverId) else [])
    + [OPT_END]
  }

  function AddressItem(tag: byte, ip: u32): (r: seq<Item>) {
    if ip == 0 then [] else [Option(tag, BE32(ip))]
  }

  lemma {:induction false} EncodeConcat(a: seq<Item>, b: seq<Item>)
    requires ValidItems(a) && ValidItems(b)
    ensures ValidItems(a + b) && Encode(a + b) == Encode(a) + Encode(b)
  {
    if a == [] {
      assert a + b == b;
    } else {
      assert (a + b)[0] == a[0] && (a + b)[1..] == a[1..] + b;
      EncodeConcat(a[1..], b);
      assert Encode(a + b) == EncodeItem(a[0]) + (Encode(a[1..]) + Encode(b));
    }
  }

  lemma EncodeAddress(tag: byte, ip: u32)
    requires tag != OPT_PAD && tag != OPT_END
    ensures ValidItems(AddressItem(tag, ip)) && Encode(AddressItem(tag, ip)) == AddressOption(tag, ip)
    ensures ip != 0 ==> At32(BE32(ip), 0) == ip
  {
    if ip != 0 {
      assert AddressItem(tag, ip)[1..] == [];
      assert BE32(ip) == [] + BE32(ip) + [];
      Get32BE([], ip, []);
    }
  }

  /** The readers recover from a REQUEST what dhcp_send put in: its type and both addresses (0 when
      omitted); from every other message, its type. */
  lemma OptionsRoundTrip(msgType: byte, reqIp: u32, serverId: u32)
    ensures GetMsgType(ClientOptions(msgType, reqIp, serverId)) == msgType
    ensures msgType == DHCP_REQUEST ==>
              GetOpt32(ClientOptions(msgType, reqIp, serverId), OPT_REQ_IP) == reqIp
              && GetOpt32(ClientOptions(msgType, reqIp, serverId), OPT_SERVER_ID) == serverId
    ensures msgType != DHCP_REQUEST ==>
              GetOpt32(ClientOptions(msgType, reqIp, serverId), OPT_REQ_IP) == 0
              && GetOpt32(ClientOptions(msgType, reqIp, serverId), OPT_SERVER_ID) == 0
  {
    var head := [Option(OPT_MSG_TYPE, [msgType])];
    var tail := if msgType == DHCP_REQUEST then AddressItem(OPT_REQ_IP, reqIp) + AddressItem(OPT_SERVER_ID, serverId) else [];
    EncodeAddress(OPT_REQ_IP, reqIp);
    EncodeAddress(OPT_SERVER_ID, serverId);
    EncodeConcat(AddressItem(OPT_REQ_IP, reqIp), AddressItem(OPT_SERVER_ID, serverId));
    assert ValidItem(head[0]) && head[1..] == [] && Encode(head) == [OPT_MSG_TYPE, 1, msgType];
    EncodeConcat(head, tail);
    var items := head + tail;
    assert ClientOptions(msgType, reqIp, serverId) == Encode(items) + [OPT_END] + [];
    ReadersMeetSpec(items, [], OPT_REQ_IP);
    ReadersMeetSpec(items, [], OPT_SERVER_ID);
    assert items[0] == head[0] && items[1..] == tail;
    FirstRequested(reqIp, serverId);
  }

  lemma FirstRequested(reqIp: u32, serverId: u32)
    ensures var t := AddressItem(OPT_REQ_IP, reqIp) + AddressItem(OPT_SERVER_ID, serverId);
            && First(t, OPT_REQ_IP, 4) == (if reqIp == 0 then [] else BE32(reqIp))
            && First(t, OPT_SERVER_ID, 4) == (if serverId == 0 then [] else BE32(serverId))
  {
    var a, b := AddressItem(OPT_REQ_IP, reqIp), AddressItem(OPT_SERVER_ID, serverId);
    var t := a + b;
    if reqIp == 0 { assert t == b; } else { assert t[0] == a[0] && t[1..] == b; }
    if serverId != 0 { assert b[1..] == []; }
  }

  // ---------------------------------------------------------------- the code

  method RunGetOpt32(opts: seq<byte>, tag: byte) returns (v: u32)
    ensures v == GetOpt32(opts, tag)
  {
    var i := 0;
    while i < |opts|
      invariant 0 <= i && Seek(opts, tag, 4, i) == Seek(opts, tag, 4, 0)
      decreases |opts| - i
    {
      var t := opts[i];
      i := i + 1;
      if t == OPT_END { return 0; }
      if t == OPT_PAD { continue; }
      if i >= |opts| { return 0; }
      var l := opts[i];
      i := i + 1;
      if t == tag && l >= 4 { return At32(opts, i); }
      i := i + l;
    }
    return 0;
  }

  method RunGetMsgType(opts: seq<byte>) returns (v: byte)
    ensures v == GetMsgType(opts)
  {
    var i := 0;
    while i < |opts|
      invariant 0 <= i && Seek(opts, OPT_MSG_TYPE, 1, i) == Seek(opts, OPT_MSG_TYPE, 1, 0)
      decreases |opts| - i
    {
      var t := opts[i];
      i := i + 1;
      if t == OPT_END { return 0; }
      if t == OPT_PAD { continue; }
      if i >= |opts| { return 0; }
      var l := opts[i];
      i := i + 1;
      if t == OPT_MSG_TYPE && l >= 1 { return At(opts, i); }
      i := i + l;
    }
    return 0;
  }
}
