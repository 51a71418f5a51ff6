/** The ARP cache of src/arp.c as a value: sixteen slots, a 30 s lifetime, oldest-first eviction. */
module ArpCache {
  import opened Bytes

  const SLOTS := 16
  const TIMEOUT_MS := 30000
  const CLOCK := 0x1_0000_0000_0000_0000

  type Mac = m: seq<byte> | |m| == 6 witness [0, 0, 0, 0, 0, 0]

  datatype Entry = Entry(ip: u32, mac: Mac, ts: u64, valid: bool)

  type Cache = c: seq<Entry> | |c| == SLOTS witness seq(SLOTS, _ => Entry(0, [0, 0, 0, 0, 0, 0], 0, false))

  const EmptyEntry := Entry(0, [0, 0, 0, 0, 0, 0], 0, false)
  function EmptyCache(): (c: Cache)
    ensures forall i :: 0 <= i < SLOTS ==> c[i] == EmptyEntry
  {
    seq(SLOTS, _ => EmptyEntry)
  }

  predicate Holds(e: Entry, ip: u32) { e.valid && e.ip == ip }

  /** The first slot that holds ip, or |c|. */
  function Find(c: seq<Entry>, ip: u32): (k: nat)
    ensures k <= |c|
    ensures forall j :: 0 <= j < k ==> !Holds(c[j], ip)
    ensures k < |c| ==> Holds(c[k], ip)
  {
    if c == [] || Holds(c[0], ip) then 0 else 1 + Find(c[1..], ip)
  }

  function FirstInvalid(c: seq<Entry>): (k: nat)
    ensures k <= |c|
    ensures forall j :: 0 <= j < k ==> c[j].valid
    ensures k < |c| ==> !c[k].valid
  {
    if c == [] || !c[0].valid then 0 else 1 + FirstInvalid(c[1..])
  }

  /** The first of the slots with the smallest time stamp. */
  function Oldest(c: seq<Entry>): (k: nat)
    requires c != []
    ensures k < |c|
    ensures forall j :: 0 <= j < |c| ==> c[k].ts <= c[j].ts
    ensures forall j :: 0 <= j < k ==> c[k].ts < c[j].ts
  {
    if |c| == 1 then 0
    else
      var last := |c| - 1;
      var k := Oldest(c[..last]);
      if c[last].ts < c[k].ts then last else k
  }

  /** The slot a new address goes to. */
  function Victim(c: Cache): (r: nat) {
    if FirstInvalid(c) < SLOTS then FirstInvalid(c) else Oldest(c)
  }

  /** arp_learn */
  function Learn(c: Cache, ip: u32, mac: Mac, now: u64): (r: Cache) {
    var k := Find(c, ip);
    if k < SLOTS then c[k := c[k].(mac := mac, ts := now)]
    else c[Victim(c) := Entry(ip, mac, now, true)]
  }

  /** time_ms() - ts, in 64-bit arithmetic. */
  function Age(now: u64, ts: u64): (r: u64) { if ts <= now then now - ts else now - ts + CLOCK }

  predicate Fresh(e: Entry, now: u64) { Age(now, e.ts) < TIMEOUT_MS }

  /** No two valid slots hold the same address. */
  ghost predicate Unique(c: seq<Entry>) {
    forall i, j :: 0 <= i < j < |c| && c[i].valid && c[j].valid ==> c[i].ip != c[j].ip
  }

  datatype Answer = Answer(mac: Option<Mac>, cache: Cache)

  /** arp_lookup: an expired entry is not returned, and is dropped. */
  function Lookup(c: Cache, ip: u32, now: u64): (r: Answer) {
    var k := Find(c, ip);
    if k == SLOTS then Answer(None, c)
    else if Fresh(c[k], now) then Answer(Some(c[k].mac), c)
    else Answer(None, c[k := c[k].(valid := false)])
  }

  lemma LearnKeepsUnique(c: Cache, ip: u32, mac: Mac, now: u64)
    requires Unique(c)
    ensures Unique(Learn(c, ip, mac, now))
  {}

  // ---------------------------------------------------------------- histories

  datatype Event =
    | Learned(ip: u32, mac: Mac, t: u64)
    | LookedUp(ip: u32, t: u64)
    | Flushed(t: u64)

  function Apply(c: Cache, e: Event): (r: Cache) {
    match e
    case Learned(ip, mac, t) => Learn(c, ip, mac, t)
    case LookedUp(ip, t) => Lookup(c, ip, t).cache
    case Flushed(_) => EmptyCache()
  }

  function Replay(evs: seq<Event>): (r: Cache) {
    if evs == [] then EmptyCache() else Apply(Replay(evs[..|evs| - 1]), evs[|evs| - 1])
  }

  /** The clock never runs backwards, up to the present. */
  ghost predicate InOrder(evs: seq<Event>, now: u64) {
    && (forall i, j :: 0 <= i < j < |evs| ==> evs[i].t <= evs[j].t)
    && (forall i :: 0 <= i < |evs| ==> evs[i].t <= now)
  }

  /** The most recent time ip was learned, as an index, or -1. */
  function LastLearn(evs: seq<Event>, ip: u32): (k: int)
    ensures -1 <= k < |evs|
    ensures k >= 0 ==> evs[k].Learned? && evs[k].ip == ip
    ensures forall j :: k < j < |evs| ==> !(evs[j].Learned? && evs[j].ip == ip)
  {
    if evs == [] then -1
    else
      var e := evs[|evs| - 1];
      if e.Learned? && e.ip == ip then |evs| - 1 else LastLearn(evs[..|evs| - 1], ip)
  }

  /** Every valid slot carries what was last learned of its address. */
  ghost predicate Faithful(c: Cache, evs: seq<Event>) {
    forall i :: 0 <= i < SLOTS && c[i].valid ==>
      var k := LastLearn(evs, c[i].ip); k >= 0 && evs[k] == Learned(c[i].ip, c[i].mac, c[i].ts)
  }

  lemma {:induction false} ReplayFaithful(evs: seq<Event>)
    ensures Unique(Replay(evs)) && Faithful(Replay(evs), evs)
  {
    if evs != [] {
      ReplayFaithful(evs[..|evs| - 1]);
      ApplyFaithful(Replay(evs[..|evs| - 1]), evs);
    }
  }

  lemma ApplyFaithful(c: Cache, evs: seq<Event>)
    requires evs != [] && Unique(c) && Faithful(c, evs[..|evs| - 1])
    ensures var d := Apply(c, evs[|evs| - 1]); Unique(d) && Faithful(d, evs)
  {
    var p, e := evs[..|evs| - 1], evs[|evs| - 1];
    var d := Apply(c, e);
    if e.Learned? { LearnKeepsUnique(c, e.ip, e.mac, e.t); }
    forall i | 0 <= i < SLOTS && d[i].valid
      ensures var k := LastLearn(evs, d[i].ip); k >= 0 && evs[k] == Learned(d[i].ip, d[i].mac, d[i].ts)
    {
      if e.Learned? && d[i].ip == e.ip {
        assert LastLearn(evs, e.ip) == |evs| - 1;
      } else {
        assert d[i] == c[i] && LastLearn(evs, d[i].ip) == LastLearn(p, d[i].ip);
      }
    }
  }

  /** A lookup that succeeds returns what was most recently learned, less than 30 s ago. */
  lemma LookupIsSound(evs: seq<Event>, ip: u32, now: u64)
    requires InOrder(evs, now) && Lookup(Replay(evs), ip, now).mac.Some?
    ensures var k := LastLearn(evs, ip);
            k >= 0 && evs[k].mac == Lookup(Replay(evs), ip, now).mac.value && now - evs[k].t < TIMEOUT_MS
  {
    ReplayFaithful(evs);
  }

  /** Eviction takes the stalest entry: in every history a fresh entry goes only when every entry
      is fresh. */
  lemma FreshEvictedLast(evs: seq<Event>, ip: u32, now: u64)
    requires InOrder(evs, now)
    requires var c := Replay(evs); Find(c, ip) == SLOTS && c[Victim(c)].valid && Fresh(c[Victim(c)], now)
    ensures var c := Replay(evs); forall i :: 0 <= i < SLOTS ==> c[i].valid && Fresh(c[i], now)
  {
    var c := Replay(evs);
    ReplayFaithful(evs);
    forall i | 0 <= i < SLOTS ensures c[i].valid && Fresh(c[i], now) {
      assert c[Victim(c)].ts <= c[i].ts == evs[LastLearn(evs, c[i].ip)].t <= now;
    }
  }

  // ---------------------------------------------------------------- completeness

  /** The addresses in the cache. */
  ghost function Ips(c: Cache): (r: set<u32>) {
    set i | 0 <= i < SLOTS && c[i].valid :: c[i].ip
  }

  /** The addresses learned after event k. */
  ghost function Since(evs: seq<Event>, k: int): (r: set<u32>)
    requires -1 <= k
  {
    set i | k < i < |evs| && evs[i].Learned? :: evs[i].ip
  }

  ghost function IpsBelow(c: Cache, n: nat): (r: set<u32>)
    requires n <= SLOTS
  {
    set i | 0 <= i < n && c[i].valid :: c[i].ip
  }

  lemma IpsBelowStep(c: Cache, n: nat)
    requires 0 < n <= SLOTS && Unique(c)
    ensures IpsBelow(c, n) == IpsBelow(c, n - 1) + (if c[n - 1].valid then {c[n - 1].ip} else {})
    ensures c[n - 1].valid ==> c[n - 1].ip !in IpsBelow(c, n - 1)
  {}

  lemma {:induction false} IpsCount(c: Cache, n: nat)
    requires n <= SLOTS && Unique(c)
    ensures |IpsBelow(c, n)| <= n
    ensures (forall i :: 0 <= i < n ==> c[i].valid) ==> |IpsBelow(c, n)| == n
  {
    if n > 0 {
      IpsCount(c, n - 1);
      IpsBelowStep(c, n);
    }
  }

  /** What learning does to the set of cached addresses. */
  lemma LearnIps(c: Cache, ip: u32, mac: Mac, now: u64)
    requires Unique(c)
    ensures var d := Learn(c, ip, mac, now);
            Ips(d) == if ip in Ips(c) then Ips(c)
                      else if FirstInvalid(c) < SLOTS then Ips(c) + {ip}
                      else Ips(c) - {c[Oldest(c)].ip} + {ip}
  {
    var d, k, v := Learn(c, ip, mac, now), Find(c, ip), Victim(c);
    FoundIffCached(c, ip);
    if k < SLOTS {
      assert forall i :: 0 <= i < SLOTS ==> d[i].valid == c[i].valid && d[i].ip == c[i].ip;
    } else {
      assert d[v].ip == ip;
      assert forall i :: 0 <= i < SLOTS && i != v ==> d[i] == c[i];
      forall x | x in Ips(d) && x != ip ensures x in Ips(c) && (c[v].valid ==> x != c[v].ip) {
        var i :| 0 <= i < SLOTS && d[i].valid && d[i].ip == x;
        assert i != v;
      }
      forall x | x in Ips(c) && (c[v].valid ==> x != c[v].ip) ensures x in Ips(d) {
        var i :| 0 <= i < SLOTS && c[i].valid && c[i].ip == x;
        assert d[i] == c[i];
      }
    }
  }

  /** Dropping the entry in slot f. */
  lemma ExpireIps(c: Cache, f: nat)
    requires Unique(c) && f < SLOTS && c[f].valid
    ensures Ips(c[f := c[f].(valid := false)]) == Ips(c) - {c[f].ip}
  {
    var d := c[f := c[f].(valid := false)];
    assert forall i :: 0 <= i < SLOTS && i != f ==> d[i] == c[i];
    forall x | x in Ips(c) && x != c[f].ip ensures x in Ips(d) {
      var i :| 0 <= i < SLOTS && c[i].valid && c[i].ip == x;
      assert d[i] == c[i];
    }
    forall x | x in Ips(d) ensures x in Ips(c) && x != c[f].ip {
      var i :| 0 <= i < SLOTS && d[i].valid && d[i].ip == x;
      assert i != f && d[i] == c[i];
    }
  }

  /** What a lookup does to the set of cached addresses. */
  lemma LookupIps(c: Cache, ip: u32, now: u64)
    requires Unique(c)
    ensures var f := Find(c, ip);
            Ips(Lookup(c, ip, now).cache) == if f < SLOTS && !Fresh(c[f], now) then Ips(c) - {c[f].ip} else Ips(c)
  {
    var f := Find(c, ip);
    if f < SLOTS && !Fresh(c[f], now) { ExpireIps(c, f); }
  }

  lemma SubsetCount<T>(a: set<T>, b: set<T>)
    requires a <= b
    ensures |a| <= |b|
  {
    assert b == a + (b - a);
  }

  /** Apart from ip itself, a cache that holds ip holds at most fifteen addresses. */
  lemma RoomBesides(c: Cache, ip: u32, others: set<u32>)
    requires Unique(c) && ip in Ips(c) && others <= Ips(c) && ip !in others
    ensures |others| <= SLOTS - 1
  {
    IpsCount(c, SLOTS);
    assert Ips(c) == IpsBelow(c, SLOTS);
    SubsetCount(others + {ip}, Ips(c));
  }

  /** The circumstances of the completeness laws: ip was last learned by event k, less than 30 s
      before `now`, and nothing was flushed since then.  The clock may stand still. */
  ghost predicate Watching(evs: seq<Event>, ip: u32, k: int, now: u64) {
    && InOrder(evs, now)
    && 0 <= k == LastLearn(evs, ip) && now - evs[k].t < TIMEOUT_MS
    && (forall i :: k < i < |evs| ==> !evs[i].Flushed?)
  }

  /** The other addresses learned at time t or later. */
  ghost function Rivals(evs: seq<Event>, ip: u32, t: u64): (r: set<u32>) {
    set i | 0 <= i < |evs| && evs[i].Learned? && evs[i].t >= t && evs[i].ip != ip :: evs[i].ip
  }

  /** The addresses learned later than t. */
  ghost function Later(evs: seq<Event>, t: u64): (r: set<u32>) {
    set i | 0 <= i < |evs| && evs[i].Learned? && evs[i].t > t :: evs[i].ip
  }

  /** ip stays cached until sixteen rivals were learned; and while it is cached, so is
      everything learned later. */
  ghost predicate Tracked(evs: seq<Event>, ip: u32, t: u64) {
    && (ip in Ips(Replay(evs)) || |Rivals(evs, ip, t)| >= SLOTS)
    && (ip in Ips(Replay(evs)) ==> Later(evs, t) <= Ips(Replay(evs)))
  }

  lemma WatchingPrefix(evs: seq<Event>, ip: u32, k: int, now: u64)
    requires Watching(evs, ip, k, now) && k < |evs| - 1
    ensures Watching(evs[..|evs| - 1], ip, k, now)
  {}

  lemma FoundIffCached(c: Cache, ip: u32)
    ensures Find(c, ip) < SLOTS <==> ip in Ips(c)
  {}

  /** What one more event adds to the two sets. */
  lemma RivalsGrow(evs: seq<Event>, ip: u32, t: u64)
    requires evs != []
    ensures var e, p := evs[|evs| - 1], evs[..|evs| - 1];
            && Rivals(evs, ip, t) == Rivals(p, ip, t) + (if e.Learned? && e.t >= t && e.ip != ip then {e.ip} else {})
            && Later(evs, t) == Later(p, t) + (if e.Learned? && e.t > t then {e.ip} else {})
  {
    var p := evs[..|evs| - 1];
    assert forall i :: 0 <= i < |p| ==> p[i] == evs[i];
  }

  /** What a slot's time stamp tells: l is the event that last wrote it. */
  lemma StampTells(evs: seq<Event>, ip: u32, k: int, now: u64, i: int) returns (l: int)
    requires Watching(evs, ip, k, now) && 0 <= i < SLOTS && Replay(evs)[i].valid
    ensures var e, t := Replay(evs)[i], evs[k].t;
            && (e.ip == ip ==> e.ts == t)
            && (e.ip in Later(evs, t) <==> e.ts > t)
            && (e.ts >= t && e.ip != ip ==> e.ip in Rivals(evs, ip, t))
    ensures 0 <= l < |evs| && Replay(evs)[i].ts == evs[l].t <= now
  {
    ReplayFaithful(evs);
    var e := Replay(evs)[i];
    l := LastLearn(evs, e.ip);
    assert evs[l] == Learned(e.ip, e.mac, e.ts);
  }

  lemma {:induction false} TrackedThroughout(evs: seq<Event>, ip: u32, k: int, now: u64)
    requires Watching(evs, ip, k, now)
    ensures Tracked(evs, ip, evs[k].t)
    decreases |evs|
  {
    var e, p := evs[|evs| - 1], evs[..|evs| - 1];
    ReplayFaithful(p);
    if k == |evs| - 1 {
      assert Later(evs, e.t) == {};
      LearnIps(Replay(p), ip, e.mac, e.t);
    } else {
      WatchingPrefix(evs, ip, k, now);
      TrackedThroughout(p, ip, k, now);
      RivalsGrow(evs, ip, evs[k].t);
      if e.Learned? {
        LearnTracked(evs, ip, k, now);
      } else {
        LookupTracked(evs, ip, k, now);
      }
    }
  }

  lemma LookupTracked(evs: seq<Event>, ip: u32, k: int, now: u64)
    requires Watching(evs, ip, k, now) && k < |evs| - 1 && evs[|evs| - 1].LookedUp?
    requires Tracked(evs[..|evs| - 1], ip, evs[k].t)
    ensures Tracked(evs, ip, evs[k].t)
  {
    LookupDropsOlder(evs, ip, k, now);
    RivalsGrow(evs, ip, evs[k].t);
  }

  /** A lookup drops neither ip nor anything learned later. */
  lemma LookupDropsOlder(evs: seq<Event>, ip: u32, k: int, now: u64)
    requires Watching(evs, ip, k, now) && k < |evs| - 1 && evs[|evs| - 1].LookedUp?
    ensures var before, after := Ips(Replay(evs[..|evs| - 1])), Ips(Replay(evs));
            && after <= before && (ip in before ==> ip in after)
            && forall x :: x in before && x in Later(evs[..|evs| - 1], evs[k].t) ==> x in after
  {
    var e, p := evs[|evs| - 1], evs[..|evs| - 1];
    var c := Replay(p);
    ReplayFaithful(p);
    LookupIps(c, e.ip, e.t);
    var f := Find(c, e.ip);
    if f < SLOTS && !Fresh(c[f], e.t) { StaleIsOlder(evs, ip, k, now, f); }
  }

  /** An entry that a lookup drops was written before event k. */
  lemma StaleIsOlder(evs: seq<Event>, ip: u32, k: int, now: u64, f: int)
    requires Watching(evs, ip, k, now) && k < |evs| - 1 && evs[|evs| - 1].LookedUp? && 0 <= f < SLOTS
    requires var c := Replay(evs[..|evs| - 1]); c[f].valid && !Fresh(c[f], evs[|evs| - 1].t)
    ensures var p := evs[..|evs| - 1];
            Replay(p)[f].ip != ip && Replay(p)[f].ip !in Later(p, evs[k].t) && Replay(p)[f].ts < evs[k].t
  {
    var e, p := evs[|evs| - 1], evs[..|evs| - 1];
    WatchingPrefix(evs, ip, k, now);
    var l := StampTells(p, ip, k, now, f);
    assert p[l] == evs[l] && evs[l].t <= e.t <= now;
  }

  lemma LearnTracked(evs: seq<Event>, ip: u32, k: int, now: u64)
    requires Watching(evs, ip, k, now) && k < |evs| - 1 && evs[|evs| - 1].Learned?
    requires Tracked(evs[..|evs| - 1], ip, evs[k].t)
    ensures Tracked(evs, ip, evs[k].t)
  {
    var e, p, t := evs[|evs| - 1], evs[..|evs| - 1], evs[k].t;
    var c := Replay(p);
    WatchingPrefix(evs, ip, k, now);
    RivalsGrow(evs, ip, t);
    SubsetCount(Rivals(p, ip, t), Rivals(evs, ip, t));
    ReplayFaithful(p);
    LearnIps(c, e.ip, e.mac, e.t);
    assert e.ip != ip && e.t >= t;
    if ip in Ips(c) && e.ip !in Ips(c) && FirstInvalid(c) == SLOTS {
      OldestTells(p, ip, k, now);
      if ip == c[Oldest(c)].ip { SixteenRivals(c, ip, Rivals(p, ip, t), e.ip); }
    }
  }

  /** In a full cache that holds ip, the slot to be evicted was not written later than event k,
      and if it is ip's own then all the others are rivals. */
  lemma OldestTells(evs: seq<Event>, ip: u32, k: int, now: u64)
    requires Watching(evs, ip, k, now) && FirstInvalid(Replay(evs)) == SLOTS && ip in Ips(Replay(evs))
    ensures var c, t := Replay(evs), evs[k].t;
            c[Oldest(c)].ip !in Later(evs, t) && (c[Oldest(c)].ip == ip ==> Ips(c) - {ip} <= Rivals(evs, ip, t))
  {
    var c := Replay(evs);
    var f := Find(c, ip);
    FoundIffCached(c, ip);
    var l := StampTells(evs, ip, k, now, f);
    l := StampTells(evs, ip, k, now, Oldest(c));
    forall i | 0 <= i < SLOTS && c[i].ip != ip && c[Oldest(c)].ip == ip ensures c[i].ip in Rivals(evs, ip, evs[k].t) {
      var l' := StampTells(evs, ip, k, now, i);
    }
  }

  /** A full cache whose other fifteen addresses are rivals, plus a new one: sixteen. */
  lemma SixteenRivals(c: Cache, ip: u32, rivals: set<u32>, x: u32)
    requires Unique(c) && FirstInvalid(c) == SLOTS && ip in Ips(c) && x !in Ips(c)
    requires Ips(c) - {ip} <= rivals
    ensures |rivals + {x}| >= SLOTS
  {
    IpsCount(c, SLOTS);
    assert Ips(c) == IpsBelow(c, SLOTS);
    SubsetCount(Ips(c) - {ip} + {x}, rivals + {x});
  }

  /** While it is cached, it is found with what event k said of it. */
  lemma LookupIfCached(evs: seq<Event>, ip: u32, k: int, now: u64)
    requires Watching(evs, ip, k, now)
    ensures Lookup(Replay(evs), ip, now).mac == if ip in Ips(Replay(evs)) then Some(evs[k].mac) else None
  {
    ReplayFaithful(evs);
    FoundIffCached(Replay(evs), ip);
  }

  /** The cache is complete up to its capacity, whatever the clock does: an address learned less
      than 30 s ago is found if at most fifteen others were learned at that time or later, and is
      gone if sixteen were learned later. */
  lemma LookupBounds(evs: seq<Event>, ip: u32, k: int, now: u64)
    requires Watching(evs, ip, k, now)
    ensures var r := Lookup(Replay(evs), ip, now).mac;
            && (r == Some(evs[k].mac) || r == None)
            && (|Rivals(evs, ip, evs[k].t)| <= SLOTS - 1 ==> r == Some(evs[k].mac))
            && (|Later(evs, evs[k].t)| >= SLOTS ==> r == None)
  {
    TrackedThroughout(evs, ip, k, now);
    LookupIfCached(evs, ip, k, now);
    ReplayFaithful(evs);
    if ip in Ips(Replay(evs)) { RoomBesides(Replay(evs), ip, Later(evs, evs[k].t)); }
  }

  /** No other learn happened in event k's millisecond. */
  ghost predicate Alone(evs: seq<Event>, k: int)
    requires 0 <= k < |evs|
  {
    forall i :: 0 <= i < |evs| && i != k && evs[i].Learned? ==> evs[i].t != evs[k].t
  }

  /** Then the two bounds meet: found exactly when at most fifteen others were learned since. */
  lemma LookupIsComplete(evs: seq<Event>, ip: u32, k: int, now: u64)
    requires Watching(evs, ip, k, now) && Alone(evs, k)
    ensures Lookup(Replay(evs), ip, now).mac == (if |Since(evs, k)| <= SLOTS - 1 then Some(evs[k].mac) else None)
  {
    LookupBounds(evs, ip, k, now);
    assert Rivals(evs, ip, evs[k].t) == Since(evs, k) == Later(evs, evs[k].t);
  }

  // ---------------------------------------------------------------- the exact condition

  /** How many leading events happened at time t or before. */
  function Until(evs: seq<Event>, t: u64): (m: nat)
    ensures m <= |evs|
    ensures m > 0 ==> evs[m - 1].t <= t
    ensures forall i :: m <= i < |evs| ==> evs[i].t > t
  {
    if evs == [] then 0 else if evs[|evs| - 1].t <= t then |evs| else Until(evs[..|evs| - 1], t)
  }

  /** Slot j lies behind the one that holds ip, and was written in the same millisecond. */
  predicate IsBehind(c: Cache, ip: u32, j: int) {
    var s := Find(c, ip);
    s < j < SLOTS && c[j].valid && c[j].ts == c[s].ts
  }

  /** The addresses in those slots: they outlive ip. */
  ghost function Behind(c: Cache, ip: u32): (b: set<u32>) {
    set j | 0 <= j < SLOTS && IsBehind(c, ip, j) :: c[j].ip
  }

  /** c0 is the cache when the clock moves on from t, c a later one: slots with old stamps are as
      they were, ... */
  ghost predicate Settled(c0: Cache, c: Cache, t: u64) {
    forall j :: 0 <= j < SLOTS && c[j].valid && c[j].ts <= t ==> c[j] == c0[j]
  }

  /** ... and so are the addresses behind ip. */
  ghost predicate Standing(c0: Cache, c: Cache, ip: u32, t: u64) {
    forall j :: 0 <= j < SLOTS && IsBehind(c0, ip, j) ==> c[j].valid && c[j].ip == c0[j].ip && c[j].ts >= t
  }

  ghost predicate Pinned(c0: Cache, c: Cache, ip: u32, t: u64, later: set<u32>) {
    && Settled(c0, c, t)
    && (ip !in Ips(c0) ==> ip !in Ips(c))
    && (ip in Ips(c) ==> Standing(c0, c, ip, t))
    && (ip in Ips(c0) && ip !in Ips(c) ==> |later + Behind(c0, ip)| >= SLOTS)
  }

  lemma DropKeepsSlots(c0: Cache, c: Cache, f: int, ip: u32, t: u64)
    requires Settled(c0, c, t) && 0 <= f < SLOTS && c[f].ts < t
    ensures var d := c[f := c[f].(valid := false)]; Settled(c0, d, t) && (Standing(c0, c, ip, t) ==> Standing(c0, d, ip, t))
  {}

  lemma WriteKeepsSlots(c0: Cache, c: Cache, w: int, e: Entry, ip: u32, t: u64)
    requires Settled(c0, c, t) && 0 <= w < SLOTS && e.valid && e.ts > t
    ensures Settled(c0, c[w := e], t)
    ensures Standing(c0, c, ip, t) && (IsBehind(c0, ip, w) ==> e.ip == c[w].ip) ==> Standing(c0, c[w := e], ip, t)
  {}

  /** While ip is cached, it is in the slot where it was, with the stamp it had. */
  lemma PinnedSlot(evs: seq<Event>, ip: u32, k: int, now: u64, c0: Cache)
    requires Watching(evs, ip, k, now) && Unique(c0) && Pinned(c0, Replay(evs), ip, evs[k].t, Later(evs, evs[k].t))
    requires ip in Ips(Replay(evs))
    ensures var s := Find(c0, ip); s < SLOTS && Replay(evs)[s] == c0[s] && c0[s].valid && c0[s].ip == ip && c0[s].ts == evs[k].t
  {
    var c := Replay(evs);
    var f := Find(c, ip);
    FoundIffCached(c, ip);
    var l := StampTells(evs, ip, k, now, f);
    assert c[f] == c0[f];
    FoundIffCached(c0, ip);
  }

  lemma {:induction false} PinnedThroughout(evs: seq<Event>, ip: u32, k: int, now: u64)
    requires Watching(evs, ip, k, now)
    ensures var t, m := evs[k].t, Until(evs, evs[k].t);
            m > k && Pinned(Replay(evs[..m]), Replay(evs), ip, t, Later(evs, t))
    decreases |evs|
  {
    var t, m, e, p := evs[k].t, Until(evs, evs[k].t), evs[|evs| - 1], evs[..|evs| - 1];
    if e.t <= t {
      assert evs[..m] == evs;
      PinnedAtFirst(evs, ip, k, now);
    } else {
      WatchingPrefix(evs, ip, k, now);
      PinnedThroughout(p, ip, k, now);
      assert Until(p, t) == m && p[..m] == evs[..m];
      ReplayFaithful(evs[..m]);
      if e.Learned? {
        LearnPinned(evs, ip, k, now, Replay(evs[..m]));
      } else {
        LookupPinned(evs, ip, k, now, Replay(evs[..m]));
      }
    }
  }

  lemma PinnedAtFirst(evs: seq<Event>, ip: u32, k: int, now: u64)
    requires Watching(evs, ip, k, now)
    ensures Pinned(Replay(evs), Replay(evs), ip, evs[k].t, Later(evs, evs[k].t))
  {
    var c := Replay(evs);
    FoundIffCached(c, ip);
    if ip in Ips(c) { var l := StampTells(evs, ip, k, now, Find(c, ip)); }
  }

  lemma LookupPinned(evs: seq<Event>, ip: u32, k: int, now: u64, c0: Cache)
    requires Watching(evs, ip, k, now) && k < |evs| - 1 && evs[|evs| - 1].LookedUp?
    requires Pinned(c0, Replay(evs[..|evs| - 1]), ip, evs[k].t, Later(evs[..|evs| - 1], evs[k].t))
    ensures Pinned(c0, Replay(evs), ip, evs[k].t, Later(evs, evs[k].t))
  {
    var e, c := evs[|evs| - 1], Replay(evs[..|evs| - 1]);
    LookupDropsOlder(evs, ip, k, now);
    RivalsGrow(evs, ip, evs[k].t);
    var f := Find(c, e.ip);
    if f < SLOTS && !Fresh(c[f], e.t) {
      StaleIsOlder(evs, ip, k, now, f);
      DropKeepsSlots(c0, c, f, ip, evs[k].t);
    }
  }

  lemma LearnPinned(evs: seq<Event>, ip: u32, k: int, now: u64, c0: Cache)
    requires Watching(evs, ip, k, now) && k < |evs| - 1 && evs[|evs| - 1].Learned? && evs[|evs| - 1].t > evs[k].t
    requires Unique(c0) && Pinned(c0, Replay(evs[..|evs| - 1]), ip, evs[k].t, Later(evs[..|evs| - 1], evs[k].t))
    ensures Pinned(c0, Replay(evs), ip, evs[k].t, Later(evs, evs[k].t))
  {
    var e, p, t := evs[|evs| - 1], evs[..|evs| - 1], evs[k].t;
    WatchingPrefix(evs, ip, k, now);
    RivalsGrow(evs, ip, t);
    assert e.ip != ip && Later(evs, t) == Later(p, t) + {e.ip};
    ReplayFaithful(p);
    LearnKeepsSlots(c0, Replay(p), e.ip, e.mac, e.t, ip, t);
    if ip in Ips(Replay(p)) { PinnedSlot(p, ip, k, now, c0); }
    LearnCounts(p, ip, k, now, c0, e.ip, e.mac, e.t);
  }

  /** Learning brings no address but its own, and evicts ip only as the sixteenth. */
  lemma LearnCounts(p: seq<Event>, ip: u32, k: int, now: u64, c0: Cache, x: u32, mac: Mac, n: u64)
    requires Watching(p, ip, k, now) && x != ip
    requires Unique(c0) && Pinned(c0, Replay(p), ip, p[k].t, Later(p, p[k].t))
    ensures var d := Learn(Replay(p), x, mac, n);
            && (ip in Ips(d) ==> ip in Ips(Replay(p)))
            && (ip in Ips(c0) && ip !in Ips(d) ==> |Later(p, p[k].t) + {x} + Behind(c0, ip)| >= SLOTS)
  {
    var c := Replay(p);
    ReplayFaithful(p);
    LearnDrops(c, x, mac, n, ip);
    if ip !in Ips(c) {
      OneMore(Later(p, p[k].t), Behind(c0, ip), x);
    } else if ip !in Ips(Learn(c, x, mac, n)) {
      OthersAreRivals(p, ip, k, now, c0);
      Reorder(Later(p, p[k].t), Behind(c0, ip), x);
      SixteenRivals(c, ip, Later(p, p[k].t) + Behind(c0, ip), x);
    }
  }

  lemma LearnDrops(c: Cache, x: u32, mac: Mac, n: u64, ip: u32)
    requires Unique(c) && x != ip
    ensures var d := Learn(c, x, mac, n);
            && (ip in Ips(d) ==> ip in Ips(c))
            && (ip in Ips(c) && ip !in Ips(d) ==> x !in Ips(c) && FirstInvalid(c) == SLOTS && c[Oldest(c)].ip == ip)
  {
    LearnIps(c, x, mac, n);
  }

  lemma OneMore<T>(a: set<T>, b: set<T>, x: T)
    ensures |a + {x} + b| >= |a + b|
  {
    Reorder(a, b, x);
    SubsetCount(a + b, a + {x} + b);
  }

  /** Learning writes one slot; while ip stays in its own, that is none behind it, or it holds x already. */
  lemma LearnKeepsSlots(c0: Cache, c: Cache, x: u32, mac: Mac, now: u64, ip: u32, t: u64)
    requires Settled(c0, c, t) && now > t && x != ip
    ensures Settled(c0, Learn(c, x, mac, now), t)
    ensures var s := Find(c0, ip);
            Standing(c0, c, ip, t) && s < SLOTS && c[s] == c0[s] && c0[s].ts == t ==> Standing(c0, Learn(c, x, mac, now), ip, t)
  {
    var w := if Find(c, x) < SLOTS then Find(c, x) else Victim(c);
    var s := Find(c0, ip);
    WriteKeepsSlots(c0, c, w, Learn(c, x, mac, now)[w], ip, t);
    assert Learn(c, x, mac, now) == c[w := Learn(c, x, mac, now)[w]];
    assert s < SLOTS && c[s] == c0[s] && c0[s].ts == t && Find(c, x) == SLOTS && Standing(c0, c, ip, t) ==> !IsBehind(c0, ip, w);
  }

  /** When ip is the next to go, an entry that was not learned later stands behind it. */
  lemma OtherIsBehind(c0: Cache, c: Cache, ip: u32, t: u64, i: int)
    requires Settled(c0, c, t) && 0 <= i < SLOTS && FirstInvalid(c) == SLOTS && c[i].ip != ip && c[i].ts <= t
    requires Oldest(c) == Find(c0, ip) && c[Oldest(c)].ip == ip && c[Oldest(c)].ts == t && c0[Oldest(c)].ts == t
    ensures c[i].ip in Behind(c0, ip)
  {
    assert c[i] == c0[i] && c[i].valid;
    assert IsBehind(c0, ip, i);
  }

  lemma OtherIsRival(evs: seq<Event>, ip: u32, k: int, now: u64, c0: Cache, i: int)
    requires Watching(evs, ip, k, now) && Settled(c0, Replay(evs), evs[k].t) && 0 <= i < SLOTS
    requires var c := Replay(evs);
             && FirstInvalid(c) == SLOTS && c[i].ip != ip && c[Oldest(c)].ip == ip
             && Oldest(c) == Find(c0, ip) && c[Oldest(c)] == c0[Oldest(c)] && c[Oldest(c)].ts == evs[k].t
    ensures Replay(evs)[i].ip in Later(evs, evs[k].t) + Behind(c0, ip)
  {
    var c := Replay(evs);
    var l := StampTells(evs, ip, k, now, i);
    if c[i].ts <= evs[k].t { OtherIsBehind(c0, c, ip, evs[k].t, i); }
  }

  lemma AllButOne(c: Cache, ip: u32, rivals: set<u32>)
    requires forall i :: 0 <= i < SLOTS && c[i].ip != ip ==> c[i].ip in rivals
    ensures Ips(c) - {ip} <= rivals
  {}

  /** When ip is the next to go, the others in the cache were learned later or stand behind it. */
  lemma OthersAreRivals(evs: seq<Event>, ip: u32, k: int, now: u64, c0: Cache)
    requires Watching(evs, ip, k, now) && Unique(c0) && Pinned(c0, Replay(evs), ip, evs[k].t, Later(evs, evs[k].t))
    requires var c := Replay(evs); ip in Ips(c) && FirstInvalid(c) == SLOTS && c[Oldest(c)].ip == ip
    ensures Ips(Replay(evs)) - {ip} <= Later(evs, evs[k].t) + Behind(c0, ip)
  {
    var c := Replay(evs);
    ReplayFaithful(evs);
    PinnedSlot(evs, ip, k, now, c0);
    assert Oldest(c) == Find(c0, ip);
    forall i | 0 <= i < SLOTS && c[i].ip != ip ensures c[i].ip in Later(evs, evs[k].t) + Behind(c0, ip) {
      OtherIsRival(evs, ip, k, now, c0, i);
    }
    AllButOne(c, ip, Later(evs, evs[k].t) + Behind(c0, ip));
  }

  lemma Reorder<T>(a: set<T>, b: set<T>, x: T)
    ensures a + {x} + b == a + b + {x} && a + b <= a + {x} + b
  {}

  lemma CachedExactly(evs: seq<Event>, ip: u32, k: int, now: u64, c0: Cache)
    requires Watching(evs, ip, k, now) && Unique(c0) && Pinned(c0, Replay(evs), ip, evs[k].t, Later(evs, evs[k].t))
    ensures ip in Ips(Replay(evs)) <==> ip in Ips(c0) && |Later(evs, evs[k].t) + Behind(c0, ip)| <= SLOTS - 1
  {
    var c, t := Replay(evs), evs[k].t;
    if ip in Ips(c) {
      ReplayFaithful(evs);
      TrackedThroughout(evs, ip, k, now);
      PinnedSlot(evs, ip, k, now, c0);
      BehindIsCached(c0, c, ip, t);
      NotLater(evs, ip, k, now);
      RoomBesides(c, ip, Later(evs, t) + Behind(c0, ip));
    }
  }

  lemma NotLater(evs: seq<Event>, ip: u32, k: int, now: u64)
    requires Watching(evs, ip, k, now)
    ensures ip !in Later(evs, evs[k].t)
  {}

  /** The exact condition, whatever the clock does: the address was still cached when its
      millisecond ended, and the addresses learned later, together with those that stood behind it
      then, are at most fifteen. */
  lemma LookupIsExact(evs: seq<Event>, ip: u32, k: int, now: u64)
    requires Watching(evs, ip, k, now)
    ensures var t := evs[k].t;
            var c0 := Replay(evs[..Until(evs, t)]);
            Lookup(Replay(evs), ip, now).mac ==
            if ip in Ips(c0) && |Later(evs, t) + Behind(c0, ip)| <= SLOTS - 1 then Some(evs[k].mac) else None
  {
    var c0 := Replay(evs[..Until(evs, evs[k].t)]);
    ReplayFaithful(evs[..Until(evs, evs[k].t)]);
    PinnedThroughout(evs, ip, k, now);
    CachedExactly(evs, ip, k, now, c0);
    LookupIfCached(evs, ip, k, now);
  }

  lemma BehindIsCached(c0: Cache, c: Cache, ip: u32, t: u64)
    requires Unique(c0) && Find(c0, ip) < SLOTS && c0[Find(c0, ip)].valid
    requires Standing(c0, c, ip, t)
    ensures Behind(c0, ip) <= Ips(c) && ip !in Behind(c0, ip)
  {}

  // ---------------------------------------------------------------- learns in one millisecond

  /** The given addresses, learned one after the other at one time. */
  function Burst(ips: seq<u32>, mac: Mac, t: u64): (evs: seq<Event>)
    ensures |evs| == |ips| && forall i :: 0 <= i < |ips| ==> evs[i] == Learned(ips[i], mac, t)
  {
    seq(|ips|, i requires 0 <= i < |ips| => Learned(ips[i], mac, t))
  }

  ghost predicate Distinct(ips: seq<u32>) { forall i, j :: 0 <= i < j < |ips| ==> ips[i] != ips[j] }

  ghost predicate FilledBy(c: Cache, ips: seq<u32>, mac: Mac, t: u64) {
    forall i :: 0 <= i < SLOTS ==> c[i] == if i < |ips| then Entry(ips[i], mac, t, true) else EmptyEntry
  }

  lemma FillsNext(c: Cache, ips: seq<u32>, x: u32, mac: Mac, t: u64)
    requires |ips| < SLOTS && FilledBy(c, ips, mac, t) && x !in ips
    ensures FilledBy(Learn(c, x, mac, t), ips + [x], mac, t)
  {
    assert c[|ips|] == EmptyEntry;
    assert Find(c, x) == SLOTS && FirstInvalid(c) == |ips|;
  }

  /** New addresses fill the slots in order. */
  lemma {:induction false} BurstFills(ips: seq<u32>, mac: Mac, t: u64)
    requires |ips| <= SLOTS && Distinct(ips)
    ensures FilledBy(Replay(Burst(ips, mac, t)), ips, mac, t)
  {
    if ips != [] {
      var n := |ips| - 1;
      BurstFills(ips[..n], mac, t);
      assert Burst(ips, mac, t)[..n] == Burst(ips[..n], mac, t);
      FillsNext(Replay(Burst(ips[..n], mac, t)), ips[..n], ips[n], mac, t);
      assert ips[..n] + [ips[n]] == ips;
    }
  }

  /** Without that condition completeness fails: sixteen addresses, the first of them again, and a
      new one, all in one millisecond.  Only one other address was learned since the first was, and
      yet it is gone, since its slot is the first of the oldest. */
  lemma OneMillisecondEvicts(ips: seq<u32>, x: u32, mac: Mac, t: u64)
    requires |ips| == SLOTS && Distinct(ips) && x !in ips
    ensures var evs := Burst(ips + [ips[0], x], mac, t);
            Watching(evs, ips[0], SLOTS, t) && Since(evs, SLOTS) == {x} && Lookup(Replay(evs), ips[0], t).mac == None
  {
    var evs := Burst(ips + [ips[0], x], mac, t);
    var c := Replay(Burst(ips, mac, t));
    BurstFills(ips, mac, t);
    assert evs[..SLOTS + 1][..SLOTS] == Burst(ips, mac, t) && evs[..SLOTS + 1][SLOTS] == Learned(ips[0], mac, t);
    assert Find(c, ips[0]) == 0;
    assert Replay(evs[..SLOTS + 1]) == c;
    assert Find(c, x) == SLOTS && Victim(c) == 0;
    var d := Replay(evs);
    assert d == c[0 := Entry(x, mac, t, true)];
    assert Find(d, ips[0]) == SLOTS;
    assert evs[SLOTS].ip == ips[0] && evs[SLOTS + 1].ip == x != ips[0];
    assert x in Since(evs, SLOTS);
  }
}
