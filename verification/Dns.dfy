/** src/dns.c: building a query, and finding the address in a response (RFC 1035, section 4.1). */
module Dns {
  import opened Bytes
  import opened Host

  const DNS_PORT := 53
  const CLIENT_PORT := 1053
  const QUERY_MAX := 256
  const DOT := 46
  const COMPRESSED := 0xC0 // a length byte with both top bits set

  // ---------------------------------------------------------------- queries

  /** The end of the label that starts at position i: the next dot, or the end of the name. */
  function LabelEnd(name: seq<byte>, i: nat): (e: nat)
    requires i <= |name|
    ensures i <= e <= |name| && (e < |name| ==> name[e] == DOT)
    decreases |name| - i
  {
    if i == |name| || name[i] == DOT then i else LabelEnd(name, i + 1)
  }

  /** Behind the label that starts at i, and behind its dot. */
  function NextLabel(name: seq<byte>, i: nat): (j: nat)
    requires i < |name|
    ensures i < j <= |name|
  {
    var e := LabelEnd(name, i);
    if e < |name| then e + 1 else e
  }

  /** The length byte in front of a label, as the code casts it. */
  function LenByte(n: nat): (b: seq<byte>)
    ensures |b| == 1
  {
    [n % 0x100]
  }

  /** One label as the code writes it. */
  function EncodeLabel(text: seq<byte>): (w: seq<byte>)
    ensures |w| == 1 + |text|
  {
    LenByte(|text|) + text
  }

  /** What the code writes for the name from position i on, without the root label. */
  function EncodeFrom(name: seq<byte>, i: nat): (r: seq<byte>)
    requires i <= |name|
    decreases |name| - i
  {
    if i == |name| then []
    else EncodeLabel(name[i..LabelEnd(name, i)]) + EncodeFrom(name, NextLabel(name, i))
  }

  function EncodeName(name: seq<byte>): (r: seq<byte>) { EncodeFrom(name, 0) }

  /** The room test of the loop fails at this label or a later one. */
  predicate Overflows(name: seq<byte>, i: nat, pos: nat, max: int)
    requires i <= |name|
    decreases |name| - i
  {
    i < |name| &&
    (pos + 1 + (LabelEnd(name, i) - i) + 5 >= max
     || Overflows(name, NextLabel(name, i), pos + 1 + (LabelEnd(name, i) - i), max))
  }

  function QueryHeader(txid: u16): (h: seq<byte>)
    ensures |h| == 12
  {
    BE16(txid) + BE16(0x0100) + BE16(1) + [0, 0, 0, 0, 0, 0]
  }

  /** dns_build_query; None stands for -1. */
  function BuildQuery(max: int, txid: u16, name: seq<byte>): (r: Option<seq<byte>>) {
    if max < 12 || Overflows(name, 0, 12, max) then None
    else Some(QueryHeader(txid) + EncodeName(name) + [0] + BE16(1) + BE16(1))
  }

  lemma {:induction false} OverflowsMeans(name: seq<byte>, i: nat, pos: nat, max: int)
    requires i < |name|
    ensures Overflows(name, i, pos, max) <==> pos + |EncodeFrom(name, i)| + 5 >= max
    decreases |name| - i
  {
    var j, p := NextLabel(name, i), pos + 1 + (LabelEnd(name, i) - i);
    assert pos + |EncodeFrom(name, i)| == p + |EncodeFrom(name, j)|;
    if j < |name| { OverflowsMeans(name, j, p, max); }
  }

  /** A query for a nonempty name is refused exactly when its full encoding would reach max; what
      is built stays within max except for an empty name in a buffer of 12 to 16 bytes. */
  lemma QueryFits(max: int, txid: u16, name: seq<byte>)
    ensures name != [] ==>
              (BuildQuery(max, txid, name).None? <==> max < 12 || 12 + |EncodeName(name)| + 5 >= max)
    ensures BuildQuery(max, txid, name).Some? ==>
              (|BuildQuery(max, txid, name).value| <= max <==> name != [] || max >= 17)
  {
    if name != [] { OverflowsMeans(name, 0, 12, max); }
  }

  // ---------------------------------------------------------------- names on the wire

  /** A label on the wire: any 1 to 63 bytes. */
  predicate ValidLabel(l: seq<byte>) { 1 <= |l| <= 63 }

  /** A label that can stand in a dotted name. */
  predicate DotFree(l: seq<byte>) { forall i :: 0 <= i < |l| ==> l[i] != DOT }

  ghost predicate ValidLabels(ls: seq<seq<byte>>) {
    forall i :: 0 <= i < |ls| ==> ValidLabel(ls[i])
  }

  ghost predicate DotFreeLabels(ls: seq<seq<byte>>) {
    ValidLabels(ls) && forall i :: 0 <= i < |ls| ==> DotFree(ls[i])
  }

  /** Labels as RFC 1035 writes them, without the root label. */
  function Wire(ls: seq<seq<byte>>): (r: seq<byte>) {
    if ls == [] then [] else EncodeLabel(ls[0]) + Wire(ls[1..])
  }

  /** Labels with a dot between them. */
  function Dotted(ls: seq<seq<byte>>): (r: seq<byte>) {
    if ls == [] then [] else if |ls| == 1 then ls[0] else ls[0] + [DOT] + Dotted(ls[1..])
  }

  /** From position i on, the name reads l and then rest, which is empty or starts with a dot. */
  ghost predicate Reads(name: seq<byte>, i: nat, l: seq<byte>, rest: seq<byte>) {
    i <= |name| && name[i..] == l + rest && (rest != [] ==> rest[0] == DOT)
  }

  /** A label ends at the first dot, or with the name. */
  lemma {:induction false} LabelEndIs(name: seq<byte>, i: nat, e: nat)
    requires i <= e <= |name| && (forall k :: i <= k < e ==> name[k] != DOT) && (e < |name| ==> name[e] == DOT)
    ensures LabelEnd(name, i) == e
    decreases e - i
  {
    if i < e { LabelEndIs(name, i + 1, e); }
  }

  ghost predicate LabelAndDot(name: seq<byte>, i: nat, l: seq<byte>) {
    i + |l| < |name| && name[i..i + |l|] == l && name[i + |l|] == DOT
  }

  lemma FirstSlices(name: seq<byte>, i: nat, l: seq<byte>, rest: seq<byte>)
    requires Reads(name, i, l, rest)
    ensures |name| == i + |l| + |rest| && name[i..i + |l|] == l && name[i + |l|..] == rest
    ensures rest != [] ==> i + |l| < |name| && name[i + |l|] == DOT && name[i + |l| + 1..] == rest[1..]
  {
    FollowsTail(name, i, l, rest);
    if rest != [] {
      assert name[i + |l|..][0] == rest[0];
      assert name[i + |l| + 1..] == name[i + |l|..][1..];
    }
  }

  lemma DottedReads(name: seq<byte>, i: nat, ls: seq<seq<byte>>, tail: seq<byte>)
    requires |ls| > 1 && i <= |name| && name[i..] == Dotted(ls) + tail
    ensures LabelAndDot(name, i, ls[0]) && name[i + |ls[0]| + 1..] == Dotted(ls[1..]) + tail
  {
    DottedSplit(ls, tail);
    var rest := Dotted(ls[1..]) + tail;
    FirstSlices(name, i, ls[0], [DOT] + rest);
    assert ([DOT] + rest)[1..] == rest;
  }

  /** What the encoder makes of a label with a dot behind it ... */
  lemma EncodesLabel(name: seq<byte>, i: nat, l: seq<byte>, j: nat, w: seq<byte>)
    requires DotFree(l) && LabelAndDot(name, i, l) && j == i + |l| + 1 && EncodeFrom(name, j) == w
    ensures EncodeFrom(name, i) == EncodeLabel(l) + w
  {
    forall k | i <= k < i + |l| ensures name[k] != DOT { assert name[i..i + |l|][k - i] == l[k - i]; }
    LabelEndIs(name, i, i + |l|);
  }

  /** ... and of the last one. */
  lemma EncodesLast(name: seq<byte>, i: nat, l: seq<byte>)
    requires ValidLabel(l) && DotFree(l) && i <= |name| && name[i..] == l
    ensures EncodeFrom(name, i) == EncodeLabel(l)
  {
    forall k | i <= k < |name| ensures name[k] != DOT { assert name[i..][k - i] == l[k - i]; }
    LabelEndIs(name, i, |name|);
    assert EncodeLabel(l) + [] == EncodeLabel(l);
  }

  lemma EncodesLastDotted(name: seq<byte>, i: nat, l: seq<byte>)
    requires ValidLabel(l) && DotFree(l) && i <= |name| && name[i..] == l + [DOT]
    ensures EncodeFrom(name, i) == EncodeLabel(l)
  {
    FirstSlices(name, i, l, [DOT]);
    EncodesLabel(name, i, l, |name|, []);
    assert EncodeLabel(l) + [] == EncodeLabel(l);
  }

  /** A dotted name, with or without a trailing dot, is encoded label by label. */
  lemma {:induction false} EncodesLabels(name: seq<byte>, i: nat, ls: seq<seq<byte>>, dot: bool) returns (w: seq<byte>)
    requires DotFreeLabels(ls) && ls != [] && i <= |name|
    requires name[i..] == Dotted(ls) + (if dot then [DOT] else [])
    ensures w == EncodeFrom(name, i) && w == Wire(ls)
    decreases |ls|
  {
    var l := ls[0];
    assert ValidLabel(l) && DotFree(l);
    WireFirst(ls);
    if |ls| == 1 {
      if dot { EncodesLastDotted(name, i, l); } else { assert l + [] == l; EncodesLast(name, i, l); }
      w := EncodeLabel(l);
    } else {
      DottedReads(name, i, ls, if dot then [DOT] else []);
      var j := i + |l| + 1;
      w := EncodesLabels(name, j, ls[1..], dot);
      EncodesLabel(name, i, l, j, w);
      w := EncodeLabel(l) + w;
    }
  }

  lemma WireFirst(ls: seq<seq<byte>>)
    requires ls != []
    ensures Wire(ls) == EncodeLabel(ls[0]) + Wire(ls[1..])
    ensures |ls| == 1 ==> Wire(ls) == EncodeLabel(ls[0]) && EncodeLabel(ls[0]) + [] == EncodeLabel(ls[0])
  {
    assert EncodeLabel(ls[0]) + [] == EncodeLabel(ls[0]);
  }

  lemma DottedSplit(ls: seq<seq<byte>>, tail: seq<byte>)
    requires |ls| > 1
    ensures Dotted(ls) + tail == ls[0] + ([DOT] + (Dotted(ls[1..]) + tail))
  {}

  /** The labels found at position p of a message, up to the root label. */
  function Decode(d: seq<byte>, p: nat): (r: seq<seq<byte>>)
    decreases |d| - p
  {
    if p >= |d| || d[p] == 0 || p + 1 + d[p] > |d| then []
    else [d[p + 1..p + 1 + d[p]]] + Decode(d, p + 1 + d[p])
  }

  /** The pointer walk over labels: `while (p < end && *p) p += 1 + *p`. */
  function SkipLabels(d: seq<byte>, p: nat): (r: nat)
    ensures r >= p
    decreases |d| - p
  {
    if p < |d| && d[p] != 0 then SkipLabels(d, p + 1 + d[p]) else p
  }

  /** From position p on, d is w and then q. */
  ghost predicate Follows(d: seq<byte>, p: nat, w: seq<byte>, q: seq<byte>) {
    p <= |d| && d[p..] == w + q
  }

  lemma FollowsTail(d: seq<byte>, p: nat, w: seq<byte>, q: seq<byte>)
    requires Follows(d, p, w, q)
    ensures p + |w| <= |d| && d[p..p + |w|] == w && d[p + |w|..] == q
    ensures forall i :: 0 <= i < |w| ==> d[p + i] == w[i]
  {
    assert |d[p..]| == |w| + |q|;
    assert d[p..p + |w|] == d[p..][..|w|] && d[p + |w|..] == d[p..][|w|..];
    forall i | 0 <= i < |w| ensures d[p + i] == w[i] { assert d[p..][i] == d[p + i]; }
  }

  lemma WireStep(d: seq<byte>, p: nat, ls: seq<seq<byte>>, q: seq<byte>)
    requires ls != [] && ValidLabel(ls[0]) && Follows(d, p, Wire(ls), q)
    ensures p < |d| && 0 < d[p] == |ls[0]| < COMPRESSED && p + 1 + d[p] <= |d|
    ensures d[p + 1..p + 1 + d[p]] == ls[0] && Follows(d, p + 1 + d[p], Wire(ls[1..]), q)
  {
    var a, t := LenByte(|ls[0]|), Wire(ls[1..]);
    Regroup(EncodeLabel(ls[0]), t, q);
    Regroup(a, ls[0], t + q);
    FollowsTail(d, p, a, ls[0] + (t + q));
    assert d[p] == a[0];
    FollowsTail(d, p + 1, ls[0], t + q);
  }

  lemma WireEnd(d: seq<byte>, p: nat, q: seq<byte>)
    requires Follows(d, p, Wire([]), [0] + q)
    ensures p < |d| && d[p] == 0
  {
    FollowsTail(d, p, [], [0] + q);
    assert d[p..][0] == 0;
  }

  lemma DecodeStep(d: seq<byte>, p: nat, ls: seq<seq<byte>>, q: seq<byte>) returns (n: nat)
    requires ls != [] && ValidLabel(ls[0]) && Follows(d, p, Wire(ls), [0] + q)
    ensures p < n <= |d| && Follows(d, n, Wire(ls[1..]), [0] + q) && Decode(d, p) == [ls[0]] + Decode(d, n)
  {
    WireStep(d, p, ls, [0] + q);
    n := p + 1 + d[p];
  }

  /** Wire labels decode back to the labels. */
  lemma {:induction false} WireDecodes(d: seq<byte>, p: nat, ls: seq<seq<byte>>, q: seq<byte>)
    requires ValidLabels(ls) && Follows(d, p, Wire(ls), [0] + q)
    ensures Decode(d, p) == ls
    decreases ls
  {
    if ls == [] {
      WireEnd(d, p, q);
    } else {
      assert ValidLabel(ls[0]);
      var n := DecodeStep(d, p, ls, q);
      WireDecodes(d, n, ls[1..], q);
      assert ls == [ls[0]] + ls[1..];
    }
  }

  /** Both pointer walks over wire labels end at the root label. */
  lemma {:induction false} WireWalk(d: seq<byte>, p: nat, ls: seq<seq<byte>>, q: seq<byte>)
    requires ValidLabels(ls) && Follows(d, p, Wire(ls), [0] + q)
    ensures SkipLabels(d, p) == p + |Wire(ls)| && SkipQuestionName(d, p) == p + |Wire(ls)| + 5
    decreases ls
  {
    if ls == [] {
      WireEnd(d, p, q);
    } else {
      assert ValidLabel(ls[0]);
      WireStep(d, p, ls, [0] + q);
      WireWalk(d, p + 1 + d[p], ls[1..], q);
      assert |Wire(ls)| == 1 + |ls[0]| + |Wire(ls[1..])|;
    }
  }

  // ---------------------------------------------------------------- responses

  /** Where the answers start: behind the question, or behind a pointer in its name. */
  function SkipQuestionName(d: seq<byte>, p: nat): (r: nat)
    ensures r >= p
    decreases |d| - p
  {
    if p < |d| && d[p] != 0 then
      if d[p] >= COMPRESSED then p + 2 else SkipQuestionName(d, p + 1 + d[p])
    else p + 5
  }

  /** Behind the owner name of an answer. */
  function SkipAnswerName(d: seq<byte>, p: nat): (r: nat)
    requires p < |d|
    ensures r > p
  {
    if d[p] >= COMPRESSED then p + 2 else SkipLabels(d, p) + 1
  }

  datatype Address = NoAddress | Address(ip: u32)

  /** What one turn of the answer loop comes to: give up, an address, or the next answer's position. */
  datatype Turn = GiveUp | Found(ip: u32) | Onward(next: nat)

  function LookAt(d: seq<byte>, p: nat): (r: Turn)
    requires p < |d|
  {
    var r := SkipAnswerName(d, p);
    if r + 10 > |d| then GiveUp
    else if Get16(d, r) == 1 && Get16(d, r + 8) == 4 && r + 14 <= |d| then Found(Get32(d, r + 10))
    else Onward(r + 10 + Get16(d, r + 8))
  }

  /** The answer loop: the address in the first A record among n answers, if any. */
  function FindAddress(d: seq<byte>, p: nat, n: nat): (r: Address)
    decreases n
  {
    if n == 0 || p >= |d| then NoAddress
    else
      match LookAt(d, p)
      case GiveUp => NoAddress
      case Found(ip) => Address(ip)
      case Onward(q) => FindAddress(d, q, n - 1)
  }

  /** dns_rx on the DNS state. */
  function DnsRx(s: DnsState, d: seq<byte>): (r: DnsState) {
    if |d| < 12 || Get16(d, 0) != s.txid || Get16(d, 2) < 0x8000 then s
    else if Get16(d, 6) == 0 then s.(done := -1)
    else
      match FindAddress(d, SkipQuestionName(d, 12), Get16(d, 6))
      case Address(ip) => s.(result := ip, done := 1)
      case NoAddress => s.(done := -1)
  }

  /** Every response to the open query settles it, whatever its bytes are. */
  lemma ResponseSettles(s: DnsState, d: seq<byte>)
    requires |d| >= 12 && Get16(d, 0) == s.txid && Get16(d, 2) >= 0x8000
    ensures DnsRx(s, d).done != 0 && DnsRx(s, d).txid == s.txid
    ensures DnsRx(s, d).done == -1 ==> DnsRx(s, d).result == s.result
  {}

  // ---------------------------------------------------------------- a serializer to compare with

  datatype Owner = Compressed(hi: byte, lo: byte) | Plain(labels: seq<seq<byte>>)

  datatype Record = Record(owner: Owner, rtype: u16, rclass: u16, ttl: u32, rdata: seq<byte>)

  ghost predicate ValidRecord(r: Record) {
    |r.rdata| < 0x1_0000 && (match r.owner case Compressed(hi, _) => hi >= COMPRESSED case Plain(ls) => ValidLabels(ls))
  }

  function EncodeOwner(o: Owner): (r: seq<byte>) {
    match o
    case Compressed(hi, lo) => [hi, lo]
    case Plain(ls) => Wire(ls) + [0]
  }

  function EncodeFixed(r: Record): (s: seq<byte>)
    ensures |s| == 10
  {
    BE16(r.rtype) + BE16(r.rclass) + BE32(r.ttl) + BE16(|r.rdata| % 0x1_0000)
  }

  function EncodeRecord(r: Record): (res: seq<byte>) {
    EncodeOwner(r.owner) + (EncodeFixed(r) + r.rdata)
  }

  ghost predicate ValidRecords(rs: seq<Record>) {
    forall i :: 0 <= i < |rs| ==> ValidRecord(rs[i])
  }

  function EncodeRecords(rs: seq<Record>): (r: seq<byte>) {
    if rs == [] then [] else EncodeRecord(rs[0]) + EncodeRecords(rs[1..])
  }

  predicate IsAddress(r: Record) { r.rtype == 1 && |r.rdata| == 4 }

  function FirstAddress(rs: seq<Record>): (r: Address) {
    if rs == [] then NoAddress
    else if IsAddress(rs[0]) then Address(Get32(rs[0].rdata, 0))
    else FirstAddress(rs[1..])
  }

  /** A response with one uncompressed question, its answers, and any further sections. */
  function Response(txid: u16, flags: u16, counts: seq<byte>, labels: seq<seq<byte>>, qtail: seq<byte>,
                    rs: seq<Record>, more: seq<byte>): (r: seq<byte>)
    requires |rs| < 0x1_0000
  {
    BE16(txid) + BE16(flags) + BE16(1) + BE16(|rs|) + counts + (Wire(labels) + ([0] + (qtail + (EncodeRecords(rs) + more))))
  }

  lemma OwnerWalk(d: seq<byte>, p: nat, o: Owner, q: seq<byte>)
    requires Follows(d, p, EncodeOwner(o), q)
    requires match o case Compressed(hi, _) => hi >= COMPRESSED case Plain(ls) => ValidLabels(ls)
    ensures p < |d| && SkipAnswerName(d, p) == p + |EncodeOwner(o)|
  {
    FollowsTail(d, p, EncodeOwner(o), q);
    match o
    case Compressed(hi, lo) => assert d[p] == hi;
    case Plain(ls) =>
      assert Wire(ls) + [0] + q == Wire(ls) + ([0] + q);
      WireWalk(d, p, ls, q);
      if ls == [] { assert d[p] == 0; } else { assert ValidLabel(ls[0]); WireStep(d, p, ls, [0] + q); }
  }

  lemma FixedFields(d: seq<byte>, p: nat, r: Record, q: seq<byte>)
    requires |r.rdata| < 0x1_0000 && Follows(d, p, EncodeFixed(r), r.rdata + q)
    ensures p + 10 + |r.rdata| <= |d| && Get16(d, p) == r.rtype && Get16(d, p + 8) == |r.rdata|
    ensures d[p + 10 + |r.rdata|..] == q
    ensures |r.rdata| == 4 ==> Get32(d, p + 10) == Get32(r.rdata, 0)
  {
    var e := EncodeFixed(r);
    FollowsTail(d, p, e, r.rdata + q);
    FollowsTail(d, p + 10, r.rdata, q);
    assert e == [] + BE16(r.rtype) + (BE16(r.rclass) + BE32(r.ttl) + BE16(|r.rdata| % 0x1_0000));
    Get16BE([], r.rtype, BE16(r.rclass) + BE32(r.ttl) + BE16(|r.rdata| % 0x1_0000));
    assert e == (BE16(r.rtype) + BE16(r.rclass) + BE32(r.ttl)) + BE16(|r.rdata|) + [];
    Get16BE(BE16(r.rtype) + BE16(r.rclass) + BE32(r.ttl), |r.rdata|, []);
    assert d[p + 8] == e[8] && d[p + 9] == e[9] && d[p] == e[0] && d[p + 1] == e[1];
  }

  lemma RecordLayout(d: seq<byte>, p: nat, r: Record, q: seq<byte>)
    requires Follows(d, p, EncodeRecord(r), q)
    ensures var o := EncodeOwner(r.owner);
            Follows(d, p, o, EncodeFixed(r) + (r.rdata + q)) && Follows(d, p + |o|, EncodeFixed(r), r.rdata + q)
  {
    var o, e := EncodeOwner(r.owner), EncodeFixed(r);
    Regroup(o, e + r.rdata, q);
    Regroup(e, r.rdata, q);
    FollowsTail(d, p, o, e + (r.rdata + q));
  }

  lemma RecordStep(d: seq<byte>, p: nat, r: Record, q: seq<byte>)
    requires ValidRecord(r) && Follows(d, p, EncodeRecord(r), q)
    ensures p < |d|
    ensures LookAt(d, p) == if IsAddress(r) then Found(Get32(r.rdata, 0)) else Onward(p + |EncodeRecord(r)|)
    ensures p + |EncodeRecord(r)| <= |d| && d[p + |EncodeRecord(r)|..] == q
  {
    var o := EncodeOwner(r.owner);
    RecordLayout(d, p, r, q);
    OwnerWalk(d, p, r.owner, EncodeFixed(r) + (r.rdata + q));
    FixedFields(d, p + |o|, r, q);
    assert |EncodeRecord(r)| == |o| + 10 + |r.rdata|;
  }

  lemma RecordsSplit(d: seq<byte>, p: nat, rs: seq<Record>, more: seq<byte>)
    requires rs != [] && Follows(d, p, EncodeRecords(rs), more)
    ensures Follows(d, p, EncodeRecord(rs[0]), EncodeRecords(rs[1..]) + more)
  {
    Regroup(EncodeRecord(rs[0]), EncodeRecords(rs[1..]), more);
  }

  lemma ValidTail(rs: seq<Record>)
    requires ValidRecords(rs) && rs != []
    ensures ValidRecord(rs[0]) && ValidRecords(rs[1..])
  {
    forall i | 0 <= i < |rs[1..]| ensures ValidRecord(rs[1..][i]) { assert ValidRecord(rs[i + 1]); }
  }

  lemma FindSkips(d: seq<byte>, p: nat, n: nat, q: nat)
    requires p < |d| && n > 0 && LookAt(d, p) == Onward(q)
    ensures FindAddress(d, p, n) == FindAddress(d, q, n - 1)
  {}

  /** One record: it is the answer, or the search goes on behind it. */
  lemma FirstRecord(d: seq<byte>, p: nat, r: Record, rest: seq<byte>, n: nat) returns (q: nat)
    requires ValidRecord(r) && Follows(d, p, EncodeRecord(r), rest)
    ensures q <= |d| && d[q..] == rest
    ensures FindAddress(d, p, n + 1) == if IsAddress(r) then Address(Get32(r.rdata, 0)) else FindAddress(d, q, n)
  {
    RecordStep(d, p, r, rest);
    q := p + |EncodeRecord(r)|;
    if !IsAddress(r) { FindSkips(d, p, n + 1, q); }
  }

  /** The first of several records. */
  lemma RecordsStep(d: seq<byte>, p: nat, rs: seq<Record>, more: seq<byte>) returns (q: nat)
    requires rs != [] && ValidRecord(rs[0]) && Follows(d, p, EncodeRecords(rs), more)
    ensures Follows(d, q, EncodeRecords(rs[1..]), more)
    ensures FindAddress(d, p, |rs|) ==
            if IsAddress(rs[0]) then Address(Get32(rs[0].rdata, 0)) else FindAddress(d, q, |rs[1..]|)
  {
    RecordsSplit(d, p, rs, more);
    q := FirstRecord(d, p, rs[0], EncodeRecords(rs[1..]) + more, |rs[1..]|);
    assert |rs| == |rs[1..]| + 1;
  }

  /** The answer loop finds what the records say. */
  lemma {:induction false} FindsFirstAddress(d: seq<byte>, p: nat, rs: seq<Record>, more: seq<byte>)
    requires ValidRecords(rs) && Follows(d, p, EncodeRecords(rs), more)
    ensures FindAddress(d, p, |rs|) == FirstAddress(rs)
    decreases rs
  {
    if rs != [] {
      ValidTail(rs);
      var q := RecordsStep(d, p, rs, more);
      FindsFirstAddress(d, q, rs[1..], more);
    }
  }

  lemma FollowsOn(d: seq<byte>, p: nat, a: seq<byte>, b: seq<byte>)
    requires Follows(d, p, a, b)
    ensures p + |a| <= |d| && d[p + |a|..] == b
  {
    FollowsTail(d, p, a, b);
  }

  /** The question walk ends behind the question. */
  lemma QuestionIsSkipped(d: seq<byte>, labels: seq<seq<byte>>, qtail: seq<byte>, rest: seq<byte>) returns (k: nat)
    requires ValidLabels(labels) && |qtail| == 4 && Follows(d, 12, Wire(labels), [0] + (qtail + rest))
    ensures SkipQuestionName(d, 12) == k <= |d| && d[k..] == rest
  {
    WireWalk(d, 12, labels, qtail + rest);
    k := 12 + |Wire(labels)|;
    FollowsOn(d, 12, Wire(labels), [0] + (qtail + rest));
    FollowsOn(d, k, [0], qtail + rest);
    FollowsOn(d, k + 1, qtail, rest);
    k := k + 5;
  }

  /** Behind a 12-byte header: question, answers, and the rest. */
  lemma BodyIsUnderstood(d: seq<byte>, labels: seq<seq<byte>>, qtail: seq<byte>, rs: seq<Record>, more: seq<byte>)
    requires ValidLabels(labels) && |qtail| == 4 && ValidRecords(rs)
    requires Follows(d, 12, Wire(labels), [0] + (qtail + (EncodeRecords(rs) + more)))
    ensures FindAddress(d, SkipQuestionName(d, 12), |rs|) == FirstAddress(rs)
  {
    var k := QuestionIsSkipped(d, labels, qtail, EncodeRecords(rs) + more);
    FindsFirstAddress(d, k, rs, more);
  }

  /** dns_rx inverts the serializer: the answer is the first A record's address, or failure. */
  lemma ResponseIsUnderstood(s: DnsState, flags: u16, counts: seq<byte>, labels: seq<seq<byte>>, qtail: seq<byte>,
                             rs: seq<Record>, more: seq<byte>)
    requires flags >= 0x8000 && |counts| == 4 && |qtail| == 4 && ValidLabels(labels)
    requires ValidRecords(rs) && |rs| < 0x1_0000
    ensures DnsRx(s, Response(s.txid, flags, counts, labels, qtail, rs, more)) ==
            (match FirstAddress(rs)
             case Address(ip) => s.(result := ip, done := 1)
             case NoAddress => s.(done := -1))
  {
    var d := Response(s.txid, flags, counts, labels, qtail, rs, more);
    var rest := Wire(labels) + ([0] + (qtail + (EncodeRecords(rs) + more)));
    ResponseHeader(s.txid, flags, |rs|, counts, rest);
    assert d[12..] == rest;
    BodyIsUnderstood(d, labels, qtail, rs, more);
  }

  lemma ResponseHeader(txid: u16, flags: u16, n: u16, counts: seq<byte>, rest: seq<byte>)
    ensures var d := BE16(txid) + BE16(flags) + BE16(1) + BE16(n) + counts + rest;
            Get16(d, 0) == txid && Get16(d, 2) == flags && Get16(d, 6) == n
  {
    var d := BE16(txid) + BE16(flags) + BE16(1) + BE16(n) + counts + rest;
    assert d == [] + BE16(txid) + (BE16(flags) + BE16(1) + BE16(n) + counts + rest);
    assert d == BE16(txid) + BE16(flags) + (BE16(1) + BE16(n) + counts + rest);
    assert d == (BE16(txid) + BE16(flags) + BE16(1)) + BE16(n) + (counts + rest);
    Get16BE([], txid, BE16(flags) + BE16(1) + BE16(n) + counts + rest);
    Get16BE(BE16(txid), flags, BE16(1) + BE16(n) + counts + rest);
    Get16BE(BE16(txid) + BE16(flags) + BE16(1), n, counts + rest);
  }

  /** A query for a well-formed name carries exactly its labels, and the question walk of dns_rx,
      started behind the header, ends exactly where the query ends. */
  lemma QueryRoundTrip(max: int, txid: u16, ls: seq<seq<byte>>, dot: bool)
    requires DotFreeLabels(ls) && ls != []
    requires BuildQuery(max, txid, Dotted(ls) + (if dot then [DOT] else [])).Some?
    ensures var q := BuildQuery(max, txid, Dotted(ls) + (if dot then [DOT] else [])).value;
            && Decode(q, 12) == ls && SkipQuestionName(q, 12) == |q|
            && |q| > 16 && Get16(q, 0) == txid && Get16(q, 2) == 0x0100 && Get16(q, 4) == 1 && q[6..12] == [0, 0, 0, 0, 0, 0]
            && q[|q| - 5] == 0 && Get16(q, |q| - 4) == 1 && Get16(q, |q| - 2) == 1
  {
    var name := Dotted(ls) + (if dot then [DOT] else []);
    assert name[0..] == name;
    var w := EncodesLabels(name, 0, ls, dot);
    var q := BuildQuery(max, txid, name).value;
    var tail := BE16(1) + BE16(1);
    assert q[12..] == Wire(ls) + ([0] + tail);
    WireWalk(q, 12, ls, tail);
    WireDecodes(q, 12, ls, tail);
    QueryShape(txid, Wire(ls));
  }

  /** The fixed fields of a query: number, flags with recursion desired, one question, no records;
      and behind the name its root label, type A and class IN. */
  lemma QueryShape(txid: u16, w: seq<byte>)
    ensures var q := QueryHeader(txid) + w + [0] + BE16(1) + BE16(1);
            && |q| > 16 && Get16(q, 0) == txid && Get16(q, 2) == 0x0100 && Get16(q, 4) == 1 && q[6..12] == [0, 0, 0, 0, 0, 0]
            && q[|q| - 5] == 0 && Get16(q, |q| - 4) == 1 && Get16(q, |q| - 2) == 1
  {
    var h, e := QueryHeader(txid), [0] + BE16(1) + BE16(1);
    var q := h + w + [0] + BE16(1) + BE16(1);
    HeaderShape(txid);
    assert forall i :: 0 <= i < 12 ==> q[i] == h[i];
    assert q[6..12] == h[6..12];
    assert e == [0, 0, 1, 0, 1];
    assert forall i :: 0 <= i < 5 ==> q[12 + |w| + i] == e[i];
  }

  lemma HeaderShape(txid: u16)
    ensures var h := QueryHeader(txid);
            Get16(h, 0) == txid && Get16(h, 2) == 0x0100 && Get16(h, 4) == 1 && h[6..12] == [0, 0, 0, 0, 0, 0]
  {
    var z: seq<byte> := [0, 0, 0, 0, 0, 0];
    assert QueryHeader(txid) == [] + BE16(txid) + (BE16(0x0100) + BE16(1) + z);
    Get16BE([], txid, BE16(0x0100) + BE16(1) + z);
  }

  // ---------------------------------------------------------------- the code

  /** dns_build_query into a buffer of max bytes: the length written, or None for -1.  The one
      call left out, an empty name with 12 to 16 bytes of room, would write past the buffer. */
  method RunBuildQuery(buf: array<byte>, txid: u16, name: seq<byte>) returns (len: Option<nat>)
    requires buf.Length < 12 || name != [] || buf.Length >= 17
    modifies buf
    ensures var q := BuildQuery(buf.Length, txid, name);
            if q.None? then len == None
            else len == Some(|q.value|) && |q.value| <= buf.Length && buf[..|q.value|] == q.value
  {
    if buf.Length < 12 { return None; }
    WriteQueryHeader(buf, txid);
    var ok, p := WriteName(buf, name);
    if !ok { return None; }
    WriteQuestionTail(buf, p);
    return Some(p + 5);
  }

  /** The label loop at position s: b has been written, and what is still to come makes up the
      target; `full` tells whether the room will run out. */
  ghost predicate Writing(name: seq<byte>, s: nat, p: nat, max: int, b: seq<byte>, target: seq<byte>, full: bool) {
    && s <= |name| && |b| == p <= max
    && (p + 5 <= max || (s == 0 && p == 12 && name != []))
    && Overflows(name, s, p, max) == full
    && b + EncodeFrom(name, s) == target
  }

  /** One turn of the loop writes one label, if it fits. */
  lemma WritingTurns(name: seq<byte>, s: nat, p: nat, max: int, b: seq<byte>, target: seq<byte>, full: bool)
    requires Writing(name, s, p, max, b, target, full) && s < |name|
    ensures var e, j, q := LabelEnd(name, s), NextLabel(name, s), p + 1 + (LabelEnd(name, s) - s);
            && s <= e <= |name|
            && (q + 5 >= max ==> full)
            && (q + 5 < max ==> Writing(name, j, q, max, b + EncodeLabel(name[s..e]), target, full))
  {
    var e, j := LabelEnd(name, s), NextLabel(name, s);
    NameTurn(name, s, p, max);
    Regroup(b, EncodeLabel(name[s..e]), EncodeFrom(name, j));
  }

  lemma NameTurn(name: seq<byte>, s: nat, p: nat, max: int)
    requires s < |name|
    ensures var e, j := LabelEnd(name, s), NextLabel(name, s);
            && EncodeFrom(name, s) == EncodeLabel(name[s..e]) + EncodeFrom(name, j)
            && Overflows(name, s, p, max) == (p + 1 + (e - s) + 5 >= max || Overflows(name, j, p + 1 + (e - s), max))
  {}

  lemma WritingEnds(name: seq<byte>, p: nat, max: int, b: seq<byte>, target: seq<byte>, full: bool)
    requires Writing(name, |name|, p, max, b, target, full)
    ensures p + 5 <= max && !full && b == target
  {
    assert b + [] == b;
  }

  /** The name is encoded behind the 12-byte header, unless the room runs out. */
  method WriteName(buf: array<byte>, name: seq<byte>) returns (ok: bool, p: nat)
    requires buf.Length >= 12 && (name != [] || buf.Length >= 17)
    modifies buf
    ensures ok == !Overflows(name, 0, 12, buf.Length)
    ensures ok ==> p + 5 <= buf.Length && buf[..p] == old(buf[..12]) + EncodeName(name)
  {
    p := 12;
    var s: nat := 0;
    ghost var target, full := buf[..12] + EncodeName(name), Overflows(name, 0, 12, buf.Length);
    while s < |name|
      invariant p <= buf.Length && Writing(name, s, p, buf.Length, buf[..p], target, full)
      decreases |name| - s
    {
      ok, s, p := WriteNext(buf, name, s, p, target, full);
      if !ok { return; }
    }
    WritingEnds(name, p, buf.Length, buf[..p], target, full);
    ok := true;
  }

  /** One turn of the label loop. */
  method WriteNext(buf: array<byte>, name: seq<byte>, s: nat, p: nat, ghost target: seq<byte>, ghost full: bool)
    returns (ok: bool, j: nat, q: nat)
    requires p <= buf.Length && Writing(name, s, p, buf.Length, buf[..p], target, full) && s < |name|
    modifies buf
    ensures !ok ==> full
    ensures ok ==> s < j && q <= buf.Length && Writing(name, j, q, buf.Length, buf[..q], target, full)
  {
    WritingTurns(name, s, p, buf.Length, buf[..p], target, full);
    var e := RunLabelEnd(name, s);
    q := p + 1 + (e - s);
    if q + 5 >= buf.Length { return false, s, p; }
    WriteLabel(buf, p, name[s..e]);
    j := if e < |name| && name[e] == DOT then e + 1 else e;
    ok := true;
  }

  method WriteLabel(buf: array<byte>, p: nat, text: seq<byte>)
    requires p + 1 + |text| <= buf.Length
    modifies buf
    ensures buf[..p + 1 + |text|] == old(buf[..p]) + EncodeLabel(text)
  {
    Append(buf, p, LenByte(|text|));
    Append(buf, p + 1, text);
  }

  method RunLabelEnd(name: seq<byte>, s: nat) returns (e: nat)
    requires s <= |name|
    ensures e == LabelEnd(name, s)
  {
    e := s;
    while e < |name| && name[e] != DOT
      invariant s <= e <= |name| && LabelEnd(name, e) == LabelEnd(name, s)
    {
      e := e + 1;
    }
  }

  method WriteQueryHeader(buf: array<byte>, txid: u16)
    requires buf.Length >= 12
    modifies buf
    ensures buf[..12] == QueryHeader(txid)
  {
    Append(buf, 0, BE16(txid));
    Append(buf, 2, BE16(0x0100));
    Append(buf, 4, BE16(1));
    Append(buf, 6, [0, 0, 0, 0, 0, 0]);
  }

  /** Root label, QTYPE A, QCLASS IN. */
  method WriteQuestionTail(buf: array<byte>, p: nat)
    requires p + 5 <= buf.Length
    modifies buf
    ensures buf[..p + 5] == old(buf[..p]) + [0] + BE16(1) + BE16(1)
  {
    Append(buf, p, [0]);
    Append(buf, p + 1, BE16(1));
    Append(buf, p + 3, BE16(1));
  }

  method RunSkipLabels(d: seq<byte>, p: nat) returns (r: nat)
    ensures r == SkipLabels(d, p)
  {
    r := p;
    while r < |d| && d[r] != 0
      invariant SkipLabels(d, r) == SkipLabels(d, p)
      decreases |d| - r
    {
      r := r + 1 + d[r];
    }
  }

  method RunSkipQuestion(d: seq<byte>) returns (r: nat)
    ensures r == SkipQuestionName(d, 12)
  {
    r := 12;
    while r < |d| && d[r] != 0
      invariant SkipQuestionName(d, r) == SkipQuestionName(d, 12)
      decreases |d| - r
    {
      if d[r] >= COMPRESSED { return r + 2; }
      r := r + 1 + d[r];
    }
    r := r + 5;
  }

  /** One turn of the answer loop. */
  method RunLookAt(d: seq<byte>, p: nat) returns (t: Turn)
    requires p < |d|
    ensures t == LookAt(d, p)
  {
    var r: nat;
    if d[p] >= COMPRESSED { r := p + 2; } else { r := RunSkipLabels(d, p); r := r + 1; }
    if r + 10 > |d| { return GiveUp; }
    var rtype, rdlen := Get16(d, r), Get16(d, r + 8);
    if rtype == 1 && rdlen == 4 && r + 14 <= |d| { return Found(Get32(d, r + 10)); }
    return Onward(r + 10 + rdlen);
  }

  method RunDnsRx(g: NetState, d: seq<byte>)
    requires g.Valid()
    modifies g`dns
    ensures g.Valid() && g.Snapshot() == old(g.Snapshot()).(dns := DnsRx(old(g.dns), d))
  {
    if |d| < 12 { return; }
    if Get16(d, 0) != g.dns.txid { return; }
    if Get16(d, 2) < 0x8000 { return; }
    var n := Get16(d, 6);
    if n == 0 { g.dns := g.dns.(done := -1); return; }
    var found := RunAnswers(d, n);
    match found
    case Address(ip) => g.dns := g.dns.(result := ip, done := 1);
    case NoAddress => g.dns := g.dns.(done := -1);
  }

  /** The question walk and the answer loop of dns_rx. */
  method RunAnswers(d: seq<byte>, n: nat) returns (a: Address)
    ensures a == FindAddress(d, SkipQuestionName(d, 12), n)
  {
    var p: nat := RunSkipQuestion(d);
    var i: nat := 0;
    while i < n && p < |d|
      invariant i <= n
      invariant FindAddress(d, p, n - i) == FindAddress(d, SkipQuestionName(d, 12), n)
      decreases n - i
    {
      var t := RunLookAt(d, p);
      match t
      case GiveUp => return NoAddress;
      case Found(ip) => return Address(ip);
      case Onward(q) => FindSkips(d, p, n - i, q); p := q;
      i := i + 1;
    }
    return NoAddress;
  }
}
