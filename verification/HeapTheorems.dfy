/** The allocator's promises, for every call and for every run of calls. */
module HeapTheorems {
  import opened HeapSpec
  import opened HeapLaws

  // ---------------------------------------------------------------- malloc

  /** A kernel request always leaves exactly eight spare bytes, so it is never split. */
  lemma KernelSlack(n: int)
    requires 0 <= n < SIZE_LIMIT && !RequestRefused(Align(n))
    ensures RequestTotal(Align(n)) - HDR == Align(n) + 8 && RequestTotal(Align(n)) % 16 == 0
  {
    var need := Align(n);
    AlignCovers(n);
    var raw := HDR + need;
    assert raw % SIZE_LIMIT == raw;
    AlignCovers(raw);
    assert RequestTotal(need) >= raw;
  }

  lemma RequestIsWhole(payload: int)
    requires 0 <= payload < SIZE_LIMIT && payload % 16 == 0 && !RequestRefused(payload)
    ensures HDR <= RequestTotal(payload) && RequestTotal(payload) % 8 == 0
  {
    AlignOfMultiple(payload);
    KernelSlack(payload);
    EvenSixteens(RequestTotal(payload));
  }

  lemma EvenSixteens(n: int)
    requires n % 16 == 0
    ensures n % 8 == 0
  {
    var q := n / 16;
    assert n == 8 * (2 * q);
    Multiple(2 * q);
  }

  lemma AlignOfMultiple(n: int)
    requires 0 <= n <= SIZE_LIMIT - 16 && n % 16 == 0
    ensures Align(n) == n
  {
    assert (n + 15) % SIZE_LIMIT == n + 15;
    assert (n + 15) / 16 == n / 16;
  }

  ghost predicate KernelMay(h: Heap, n: int, m: int) {
    SbrkAnswer(h, RequestTotal(Align(n)), m)
  }

  /** The result r of a successful request: a new live block of the rounded size or up to 55
      bytes more, and no other live block touched. */
  ghost predicate Handed(h: Heap, need: int, r: Result) {
    && Inv(r.heap)
    && r.ptr > 0 && r.ptr % 8 == 0 && r.ptr - HDR !in h.live && r.ptr - HDR in r.heap.live
    && need <= r.heap.live[r.ptr - HDR] < need + MIN_SPLIT
    && r.heap.live - {r.ptr - HDR} == h.live
  }

  /** Taking a large enough block and splitting it. */
  lemma TakeAndSplit(h: Heap, i: nat, need: int)
    requires Inv(h) && i < |h.free| && 0 <= need && need % 16 == 0 && need <= h.free[i].size
    ensures Handed(h, need, Result(Split(Take(h, i), h.free[i].addr, need), h.free[i].addr + HDR))
  {
    assert Placed(h.free[i]);
    TakeKeepsInv(h, i);
    SplitKeepsInv(Take(h, i), h.free[i].addr, need);
  }

  /** Taking a fresh kernel block, with its eight spare bytes. */
  lemma GrowForRequest(h: Heap, m: int, need: int, total: int)
    requires Inv(h) && SbrkAnswer(h, total, m) && m > 0 && 0 <= need && total == need + HDR + 8 && total % 16 == 0
    ensures Handed(h, need, Result(Grow(h, m, total), m + HDR)) && Split(Grow(h, m, total), m, need) == Grow(h, m, total)
  {
    GrowKeepsInv(h, m, total);
  }

  /** malloc keeps the heap tiled, and hands out a new block that is big enough by less than 56 bytes. */
  lemma MallocMeetsRequest(h: Heap, n: int, m: int)
    requires Inv(h) && 0 <= n < SIZE_LIMIT && KernelMay(h, n, m)
    ensures var r := Malloc(h, n, m); if r.ptr == 0 then r.heap == h else Handed(h, Align(n), r)
  {
    var need := Align(n);
    AlignCovers(n);
    var i := FirstFit(h.free, need);
    if n == 0 {
    } else if i < |h.free| {
      TakeAndSplit(h, i, need);
    } else if !RequestRefused(need) && m > 0 {
      KernelSlack(n);
      GrowForRequest(h, m, need, RequestTotal(need));
    }
  }

  /** A block from malloc is as large as was asked for exactly when rounding the request up did
      not wrap around. */
  lemma MallocCoversRequest(h: Heap, n: int, m: int)
    requires Inv(h) && 0 < n < SIZE_LIMIT && KernelMay(h, n, m) && Malloc(h, n, m).ptr != 0
    ensures var r := Malloc(h, n, m); r.ptr - HDR in r.heap.live && (n <= r.heap.live[r.ptr - HDR] <==> n <= SIZE_LIMIT - 16)
  {
    MallocMeetsRequest(h, n, m);
    AlignCovers(n);
    if n > SIZE_LIMIT - 16 { AlignWraps(n); }
  }

  lemma AlignWraps(n: int)
    requires SIZE_LIMIT - 16 < n < SIZE_LIMIT
    ensures Align(n) == 0
  {
    assert (n + 15) % SIZE_LIMIT == n + 15 - SIZE_LIMIT;
  }

  /** First fit: the kernel is asked only when no free block is large enough, and otherwise
      the block returned is the lowest one that is. */
  lemma MallocIsFirstFit(h: Heap, n: int, m: int)
    requires Inv(h) && 0 < n < SIZE_LIMIT && KernelMay(h, n, m)
    ensures (exists i :: 0 <= i < |h.free| && h.free[i].size >= Align(n)) <==>
            Malloc(h, n, m).ptr != 0 && Malloc(h, n, m).heap.regions == h.regions
    ensures Malloc(h, n, m).heap.regions == h.regions ==>
              forall i :: 0 <= i < |h.free| && h.free[i].size >= Align(n) ==> Malloc(h, n, m).ptr - HDR <= h.free[i].addr
  {
    var k := FirstFit(h.free, Align(n));
    if k < |h.free| {
      assert Placed(h.free[k]);
      forall i | 0 <= i < |h.free| && h.free[i].size >= Align(n) ensures h.free[k].addr <= h.free[i].addr {
        assert k == i || h.free[k].End() <= h.free[i].addr;
      }
    }
  }

  /** Adding a block that no block ends at creates an adjacency only with the block behind it. */
  lemma InsertKeepsCoalesced(l: seq<Block>, b: Block)
    requires Ordered(l) && Coalesced(l) && Placed(b) && ApartFromFree(l, b)
    requires forall i :: 0 <= i < |l| ==> l[i].End() != b.addr
    ensures Coalesced(Insert(l, b)) <==> IndexOf(l, b.End()) == |l|
  {
    var k, e, r := Position(l, b.addr), b.End(), Insert(l, b);
    PositionSplits(l, b);
    forall i | 0 <= i < |r| - 1 && i != k ensures r[i].End() != r[i + 1].addr {
      assert i < k - 1 ==> l[i].End() != l[i + 1].addr;
      assert i > k ==> l[i - 1].End() != l[i].addr;
    }
    forall i | 0 <= i < |l| && i != k ensures l[i].addr != e {
      if i > k { assert Placed(l[k]) && l[k].End() <= l[i].addr; }
    }
    assert r[k] == b && (k < |l| ==> r[k + 1] == l[k]);
    assert k < |r| - 1 <==> k < |l|;
  }

  lemma SplitKeepsCoalesced(h: Heap, a: int, need: int)
    requires Shape(h) && a in h.live && 0 <= need && need % 16 == 0
    requires Coalesced(h.free)
    ensures Coalesced(Split(h, a, need).free) <==>
            h.live[a] - need < MIN_SPLIT || IndexOf(h.free, LiveBlock(h.live, a).End()) == |h.free|
  {
    if h.live[a] - need >= MIN_SPLIT {
      SplitParts(h, a, need);
      NoBlockEndsAt(h.free, Block(a, need), Rest(h, a, need).addr);
      InsertKeepsCoalesced(h.free, Rest(h, a, need));
    }
  }

  lemma NoBlockEndsAt(l: seq<Block>, b: Block, e: int)
    requires Ordered(l) && ApartFromFree(l, b) && b.addr < e <= b.End()
    ensures forall i :: 0 <= i < |l| ==> l[i].End() != e
  {
    forall i | 0 <= i < |l| ensures l[i].End() != e { assert Apart(l[i], b) && Placed(l[i]); }
  }

  lemma RemoveKeepsCoalesced(l: seq<Block>, k: nat)
    requires Ordered(l) && Coalesced(l) && k < |l|
    ensures Coalesced(RemoveAt(l, k)) && IndexOf(RemoveAt(l, k), l[k].End()) == |l| - 1
  {
    RemoveLeavesGaps(l, k);
    NothingFollows(l, k);
  }

  lemma RemoveLeavesGaps(l: seq<Block>, k: nat)
    requires Ordered(l) && Coalesced(l) && k < |l|
    ensures Coalesced(RemoveAt(l, k))
  {
    var r := RemoveAt(l, k);
    assert forall i :: 0 <= i < |r| ==> r[i] == if i < k then l[i] else l[i + 1];
    assert Placed(l[k]);
    forall i | 0 <= i < |r| - 1 ensures r[i].End() != r[i + 1].addr {
      if i == k - 1 { assert l[k - 1].End() <= l[k].addr && l[k].End() <= l[k + 1].addr; }
      else { assert i < k ==> l[i].End() != l[i + 1].addr; assert i >= k ==> l[i + 1].End() != l[i + 2].addr; }
    }
  }

  /** In a coalesced list no block starts where block k ends. */
  lemma NothingFollows(l: seq<Block>, k: nat)
    requires Ordered(l) && Coalesced(l) && k < |l|
    ensures IndexOf(RemoveAt(l, k), l[k].End()) == |l| - 1
  {
    var r := RemoveAt(l, k);
    forall i | 0 <= i < |l| && i != k ensures l[i].addr != l[k].End() {
      assert Placed(l[i]) && Placed(l[k]);
      if i < k { assert l[i].End() <= l[k].addr; }
      else if i == k + 1 { assert l[k].End() != l[k + 1].addr; }
      else { assert l[k].End() <= l[k + 1].addr && l[k + 1].End() <= l[i].addr && Placed(l[k + 1]); }
    }
    assert forall i :: 0 <= i < |r| ==> r[i] == if i < k then l[i] else l[i + 1];
  }

  /** malloc never puts two free blocks next to each other. */
  lemma MallocKeepsCoalesced(h: Heap, n: int, m: int)
    requires Inv(h) && 0 <= n < SIZE_LIMIT && KernelMay(h, n, m) && Coalesced(h.free)
    ensures Coalesced(Malloc(h, n, m).heap.free)
  {
    var i := FirstFit(h.free, Align(n));
    AlignCovers(n);
    if n != 0 && i < |h.free| {
      RemoveKeepsCoalesced(h.free, i);
      TakeKeepsInv(h, i);
      SplitKeepsCoalesced(Take(h, i), h.free[i].addr, Align(n));
    }
  }

  // ---------------------------------------------------------------- free

  /** Every block of the list lies inside one block of the coalesced list. */
  lemma {:induction false} CoalesceContains(l: seq<Block>, i: nat) returns (j: nat)
    requires Ordered(l) && i < |l|
    ensures j < |Coalesce(l)| && Coalesce(l)[j].addr <= l[i].addr && l[i].End() <= Coalesce(l)[j].End()
    ensures Coalesce(l)[j].addr == l[i].addr || Coalesce(l)[j].addr + HDR <= l[i].addr
    decreases |l|
  {
    if |l| <= 1 {
      j := 0;
    } else if l[0].End() == l[1].addr {
      assert l == [l[0]] + ([l[1]] + l[2..]);
      JoinFirstTwo(l[0], l[1], l[2..]);
      JoinPlaced(l[0], l[1]);
      var t := [Join(l[0], l[1])] + l[2..];
      assert i > 1 ==> t[i - 1] == l[i];
      assert Placed(l[0]) && Placed(l[1]);
      j := CoalesceContains(t, if i <= 1 then 0 else i - 1);
    } else if i == 0 {
      j := 0;
    } else {
      TailOrdered(l);
      var k := CoalesceContains(l[1..], i - 1);
      var c := Coalesce(l[1..]);
      assert Coalesce(l) == [l[0]] + c && l[1..][i - 1] == l[i];
      j := k + 1;
      assert Coalesce(l)[j] == c[k];
    }
  }

  /** Memory that was freed is used again: the next request of at most that size needs no kernel call. */
  lemma FreedMemoryIsReused(h: Heap, p: int, n: int, m: int)
    requires Inv(h) && p - HDR in h.live && 0 < n < SIZE_LIMIT && Align(n) <= h.live[p - HDR]
    ensures Malloc(Free(h, p), n, m).ptr != 0 && Malloc(Free(h, p), n, m).heap.regions == h.regions
  {
    var b := LiveBlock(h.live, p - HDR);
    FreeKeepsInv(h, p);
    ReleaseKeepsShape(h, p - HDR);
    InsertKeepsOrder(h.free, b);
    var l := Insert(h.free, b);
    var k := Position(h.free, b.addr);
    assert l[k] == b;
    var j := CoalesceContains(l, k);
    assert Free(h, p).free[j].size >= Align(n);
    assert FirstFit(Free(h, p).free, Align(n)) < |Free(h, p).free|;
    assert forall i :: 0 <= i < |Free(h, p).free| ==> Placed(Free(h, p).free[i]);
  }

  lemma FreeAndLiveExclude(h: Heap, x: int)
    requires Shape(h)
    ensures !(InFree(h.free, x) && InLive(h.live, x))
  {
    forall i, a | 0 <= i < |h.free| && a in h.live ensures !(h.free[i].Contains(x) && LiveBlock(h.live, a).Contains(x)) {
      assert ApartFromFree(h.free, LiveBlock(h.live, a));
    }
  }

  /** free undoes a malloc that did not grow the heap: it is the same again, block for block. */
  lemma FreeUndoesMalloc(h: Heap, n: int, m: int)
    requires Inv(h) && 0 < n < SIZE_LIMIT && KernelMay(h, n, m) && Coalesced(h.free)
    ensures var r := Malloc(h, n, m); r.heap.regions == h.regions ==> Free(r.heap, r.ptr) == h
  {
    var r := Malloc(h, n, m);
    var f := Free(r.heap, r.ptr);
    MallocMeetsRequest(h, n, m);
    if r.ptr == 0 {
      assert -HDR !in h.live by { assert forall a :: a in h.live ==> Placed(LiveBlock(h.live, a)); }
    } else if r.heap.regions == h.regions {
      FreeKeepsInv(r.heap, r.ptr);
      assert f.live == h.live && f.regions == h.regions;
      forall x ensures InFree(f.free, x) <==> InFree(h.free, x) {
        FreeAndLiveExclude(h, x);
        FreeAndLiveExclude(f, x);
        assert InRegions(h.regions, x) <==> InFree(h.free, x) || InLive(h.live, x);
        assert InRegions(f.regions, x) <==> InFree(f.free, x) || InLive(f.live, x);
      }
      CoalescedIsUnique(f.free, h.free);
    }
  }

  /** A byte of a live payload belongs to no other block and to no header. */
  lemma PayloadIsPrivate(h: Heap, a: int, x: int)
    requires Inv(h) && a in h.live && a + HDR <= x < LiveBlock(h.live, a).End()
    ensures forall b :: b in h.live && b != a ==> !LiveBlock(h.live, b).Contains(x)
    ensures forall i :: 0 <= i < |h.free| ==> !h.free[i].Contains(x)
    ensures !(a <= x < a + HDR) && InRegions(h.regions, x)
  {
    assert ApartFromFree(h.free, LiveBlock(h.live, a));
    assert InLive(h.live, x) by { assert LiveBlock(h.live, a).Contains(x); }
    forall b | b in h.live && b != a ensures !LiveBlock(h.live, b).Contains(x) {
      assert Apart(LiveBlock(h.live, a), LiveBlock(h.live, b));
    }
  }

  // ---------------------------------------------------------------- realloc

  ghost predicate Replaced(h: Heap, p: int, need: int, r: Result) {
    && Inv(r.heap)
    && r.ptr - HDR in r.heap.live && r.heap.live[r.ptr - HDR] >= need
    && r.heap.live - {r.ptr - HDR} == h.live - {p - HDR}
    && (r.ptr == p || r.ptr - HDR !in h.live)
  }

  lemma ReallocShrinks(h: Heap, p: int, need: int)
    requires Inv(h) && p - HDR in h.live && 0 <= need <= h.live[p - HDR] && need % 16 == 0
    ensures Replaced(h, p, need, Result(Split(h, p - HDR, need), p))
  {
    SplitKeepsInv(h, p - HDR, need);
  }

  lemma ReallocAbsorbs(h: Heap, p: int, need: int)
    requires Inv(h) && p - HDR in h.live && 0 <= need && need % 16 == 0
    requires Absorbable(h, p - HDR, need) < |h.free|
    ensures Replaced(h, p, need, Result(Split(Absorb(h, p - HDR, Absorbable(h, p - HDR, need)), p - HDR, need), p))
  {
    var g := Absorb(h, p - HDR, Absorbable(h, p - HDR, need));
    AbsorbKeepsInv(h, p - HDR, Absorbable(h, p - HDR, need));
    ReallocShrinks(g, p, need);
    assert g.live - {p - HDR} == h.live - {p - HDR};
  }

  lemma ReallocByMoving(h: Heap, p: int, need: int, m: int)
    requires Inv(h) && p - HDR in h.live && 0 < need < SIZE_LIMIT && Align(need) == need && KernelMay(h, need, m)
    requires Malloc(h, need, m).ptr != 0
    ensures var r := Malloc(h, need, m); Replaced(h, p, need, Result(Free(r.heap, p), r.ptr))
  {
    MallocMeetsRequest(h, need, m);
    var r := Malloc(h, need, m);
    FreeKeepsInv(r.heap, p);
    assert r.heap.live - {r.ptr - HDR} - {p - HDR} == r.heap.live - {p - HDR} - {r.ptr - HDR};
  }

  /** realloc of a live block either fails and changes nothing, or replaces that one block
      by one that is big enough and touches no other live block. */
  lemma ReallocMeetsRequest(h: Heap, p: int, n: int, m: int)
    requires Inv(h) && 0 < n < SIZE_LIMIT && p - HDR in h.live && KernelMay(h, n, m)
    ensures var r := Realloc(h, p, n, m);
            Inv(r.heap) && if r.ptr == 0 then r.heap == h else Replaced(h, p, Align(n), r)
  {
    assert Placed(LiveBlock(h.live, p - HDR));
    AlignCovers(n);
    AlignIdempotent(n);
    if Align(n) <= h.live[p - HDR] {
      ReallocShrinks(h, p, Align(n));
    } else if Absorbable(h, p - HDR, Align(n)) < |h.free| {
      ReallocAbsorbs(h, p, Align(n));
    } else {
      MallocMeetsRequest(h, Align(n), m);
      if Malloc(h, Align(n), m).ptr != 0 { ReallocByMoving(h, p, Align(n), m); }
    }
  }

  /** The same holds of realloc: past 2^64 - 16 it shrinks the block instead of growing it. */
  lemma ReallocCoversRequest(h: Heap, p: int, n: int, m: int, r: Result)
    requires Inv(h) && 0 < n < SIZE_LIMIT && p - HDR in h.live && KernelMay(h, n, m) && r == Realloc(h, p, n, m) && r.ptr != 0
    ensures r.ptr - HDR in r.heap.live && (n <= r.heap.live[r.ptr - HDR] <==> n <= SIZE_LIMIT - 16)
    ensures n > SIZE_LIMIT - 16 ==> r == Result(Split(h, p - HDR, 0), p)
  {
    ReallocMeetsRequest(h, p, n, m);
    AlignCovers(n);
    LiveIsSmall(r.heap, r.ptr - HDR);
    if n > SIZE_LIMIT - 16 { ReallocWraps(h, p, n, m, r); }
  }

  lemma LiveIsSmall(h: Heap, a: int)
    requires Inv(h)
    ensures a in h.live ==> 0 <= h.live[a] < TOP && a + HDR != 0
  {
    if a in h.live { assert Placed(LiveBlock(h.live, a)); }
  }

  lemma ReallocWraps(h: Heap, p: int, n: int, m: int, r: Result)
    requires Inv(h) && SIZE_LIMIT - 16 < n < SIZE_LIMIT && p - HDR in h.live && r == Realloc(h, p, n, m)
    ensures r == Result(Split(h, p - HDR, 0), p)
  {
    AlignWraps(n);
    LiveIsSmall(h, p - HDR);
  }

  lemma AlignIdempotent(n: int)
    requires 0 <= n < SIZE_LIMIT
    ensures Align(Align(n)) == Align(n)
  {
    AlignCovers(n);
    AlignCovers(Align(n));
  }

  /** A realloc that grows never leaves two adjacent free blocks; one that shrinks does so
      exactly when it splits and the block behind it is free. */
  lemma ReallocKeepsCoalesced(h: Heap, p: int, n: int, m: int)
    requires Inv(h) && 0 < n < SIZE_LIMIT && p - HDR in h.live && KernelMay(h, n, m) && Coalesced(h.free)
    ensures Coalesced(Realloc(h, p, n, m).heap.free) <==>
            h.live[p - HDR] - Align(n) < MIN_SPLIT || IndexOf(h.free, LiveBlock(h.live, p - HDR).End()) == |h.free|
  {
    var a, need := p - HDR, Align(n);
    assert Placed(LiveBlock(h.live, a));
    AlignCovers(n);
    AlignIdempotent(n);
    if h.live[a] >= need {
      SplitKeepsCoalesced(h, a, need);
    } else {
      var k := Absorbable(h, a, need);
      if k < |h.free| {
        AbsorbKeepsInv(h, a, k);
        RemoveKeepsCoalesced(h.free, k);
        assert LiveBlock(Absorb(h, a, k).live, a).End() == h.free[k].End();
        SplitKeepsCoalesced(Absorb(h, a, k), a, need);
      } else {
        MallocMeetsRequest(h, need, m);
        MallocKeepsCoalesced(h, need, m);
        var r := Malloc(h, need, m);
        if r.ptr != 0 { FreeKeepsInv(r.heap, p); }
      }
    }
  }

  // ---------------------------------------------------------------- runs

  datatype Op =
    | DoMalloc(n: int, m: int)
    | DoFree(p: int)
    | DoRealloc(p: int, n: int, m: int)

  /** What a caller and the kernel owe the allocator. */
  ghost predicate Legal(h: Heap, op: Op) {
    match op
    case DoMalloc(n, m) => 0 <= n < SIZE_LIMIT && KernelMay(h, n, m)
    case DoFree(p) => p == 0 || p - HDR in h.live
    case DoRealloc(p, n, m) =>
      0 <= n < SIZE_LIMIT && (p == 0 || p - HDR in h.live) && KernelMay(h, n, m)
  }

  function Step(h: Heap, op: Op): (r: Heap) {
    match op
    case DoMalloc(n, m) => Malloc(h, n, m).heap
    case DoFree(p) => Free(h, p)
    case DoRealloc(p, n, m) => Realloc(h, p, n, m).heap
  }

  function Run(ops: seq<Op>): (r: Heap) {
    if ops == [] then EmptyHeap else Step(Run(ops[..|ops| - 1]), ops[|ops| - 1])
  }

  ghost predicate LegalRun(ops: seq<Op>) {
    forall i :: 0 <= i < |ops| ==> Legal(Run(ops[..i]), ops[i])
  }

  lemma StepKeepsInv(h: Heap, op: Op)
    requires Inv(h) && Legal(h, op)
    ensures Inv(Step(h, op))
  {
    match op
    case DoMalloc(n, m) => MallocMeetsRequest(h, n, m);
    case DoFree(p) => FreeKeepsInv(h, p);
    case DoRealloc(p, n, m) =>
      if p == 0 { MallocMeetsRequest(h, n, m); }
      else if n == 0 { FreeKeepsInv(h, p); }
      else { ReallocMeetsRequest(h, p, n, m); }
  }

  lemma LegalPrefix(ops: seq<Op>)
    requires LegalRun(ops) && ops != []
    ensures LegalRun(ops[..|ops| - 1]) && Legal(Run(ops[..|ops| - 1]), ops[|ops| - 1])
  {
    var q := ops[..|ops| - 1];
    forall i | 0 <= i < |q| ensures Legal(Run(q[..i]), q[i]) {
      assert q[..i] == ops[..i] && Legal(Run(ops[..i]), ops[i]);
    }
  }

  /** In every run the blocks tile the kernel's regions and never overlap. */
  lemma {:induction false} RunKeepsInv(ops: seq<Op>)
    requires LegalRun(ops)
    ensures Inv(Run(ops))
  {
    if ops != [] {
      LegalPrefix(ops);
      RunKeepsInv(ops[..|ops| - 1]);
      StepKeepsInv(Run(ops[..|ops| - 1]), ops[|ops| - 1]);
    }
  }

  /** The one step that may leave adjacent free blocks: a realloc that shrinks in front of a free block. */
  predicate ShrinksBeforeFree(h: Heap, op: Op) {
    op.DoRealloc? && op.n != 0 && op.p - HDR in h.live
    && h.live[op.p - HDR] - Align(op.n) >= MIN_SPLIT
    && IndexOf(h.free, LiveBlock(h.live, op.p - HDR).End()) < |h.free|
  }

  lemma StepKeepsCoalesced(h: Heap, op: Op)
    requires Inv(h) && Legal(h, op) && Coalesced(h.free) && !ShrinksBeforeFree(h, op)
    ensures Coalesced(Step(h, op).free)
  {
    match op
    case DoMalloc(n, m) => MallocKeepsCoalesced(h, n, m);
    case DoFree(p) => FreeKeepsInv(h, p);
    case DoRealloc(p, n, m) =>
      if p == 0 { MallocKeepsCoalesced(h, n, m); }
      else if n == 0 { FreeKeepsInv(h, p); }
      else { ReallocKeepsCoalesced(h, p, n, m); }
  }

  /** In a run without such steps the free list is maximally coalesced all the time. */
  lemma {:induction false} RunKeepsCoalesced(ops: seq<Op>)
    requires LegalRun(ops)
    requires forall i :: 0 <= i < |ops| ==> !ShrinksBeforeFree(Run(ops[..i]), ops[i])
    ensures Coalesced(Run(ops).free)
  {
    if ops != [] {
      var q, op := ops[..|ops| - 1], ops[|ops| - 1];
      LegalPrefix(ops);
      forall i | 0 <= i < |q| ensures !ShrinksBeforeFree(Run(q[..i]), q[i]) { assert q[..i] == ops[..i]; }
      RunKeepsCoalesced(q);
      RunKeepsInv(q);
      StepKeepsCoalesced(Run(q), op);
    }
  }
}
