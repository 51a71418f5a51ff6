/** When malloc and realloc succeed: exactly when memory is to be had. */
module HeapProgress {
  import opened HeapSpec
  import opened HeapLaws
  import opened HeapTheorems

  /** Some free block holds `need` bytes. */
  ghost predicate SomeFits(l: seq<Block>, need: int) {
    exists i :: 0 <= i < |l| && l[i].size >= need
  }

  /** The kernel can be asked for `need` bytes, and answers. */
  predicate KernelGives(need: int, m: int) {
    m > 0 && need < SIZE_LIMIT - 32
  }

  lemma FitsIffFound(l: seq<Block>, need: int)
    ensures SomeFits(l, need) <==> FirstFit(l, need) < |l|
  {}

  /** Both overflow tests together refuse exactly the two largest rounded sizes. */
  lemma RefusedWhen(need: int)
    requires 0 <= need < SIZE_LIMIT && need % 16 == 0
    ensures RequestRefused(need) <==> need >= SIZE_LIMIT - 32
    ensures need < SIZE_LIMIT - 32 ==> RequestTotal(need) == need + 32
  {
    var raw := HDR + need;
    if need < SIZE_LIMIT - 32 {
      LargestSixteen(need);
      assert raw % SIZE_LIMIT == raw && (raw + 15) % SIZE_LIMIT == raw + 15;
      SixteenAbove(need);
    } else if need <= SIZE_LIMIT - 1 - HDR {
      LargestSixteen(need);
      assert need == SIZE_LIMIT - 32;
      assert raw % SIZE_LIMIT == raw && (raw + 15) % SIZE_LIMIT == 7;
    }
  }

  lemma LargestSixteen(need: int)
    requires need % 16 == 0
    ensures need < SIZE_LIMIT - 32 ==> need <= SIZE_LIMIT - 48
    ensures need < SIZE_LIMIT - 16 ==> need <= SIZE_LIMIT - 32
  {
    var q := need / 16;
    assert need == 16 * q && SIZE_LIMIT == 16 * 0x1000_0000_0000_0000;
  }

  lemma SixteenAbove(need: int)
    requires need % 16 == 0
    ensures (need + 39) / 16 * 16 == need + 32
  {
    var q := need / 16;
    assert need + 39 == 16 * (q + 2) + 7;
  }

  lemma FreeAddressesDiffer(l: seq<Block>, k: nat)
    requires Ordered(l) && k < |l|
    ensures IndexOf(l, l[k].addr) == k
  {
    forall i | 0 <= i < k ensures l[i].addr != l[k].addr { assert Placed(l[i]) && l[i].End() <= l[k].addr; }
  }

  // ---------------------------------------------------------------- malloc

  /** malloc fails exactly when no free block is large enough and the kernel gives nothing. */
  lemma MallocFailsWhen(h: Heap, n: int, m: int)
    requires Inv(h) && 0 < n < SIZE_LIMIT && KernelMay(h, n, m)
    ensures Malloc(h, n, m).ptr == 0 <==> !SomeFits(h.free, Align(n)) && !KernelGives(Align(n), m)
  {
    AlignCovers(n);
    RefusedWhen(Align(n));
    FitsIffFound(h.free, Align(n));
    var i := FirstFit(h.free, Align(n));
    if i < |h.free| { assert Placed(h.free[i]); }
  }

  /** malloc of nothing returns NULL, and changes nothing. */
  lemma MallocOfNothing(h: Heap, m: int)
    ensures Malloc(h, 0, m) == Result(h, 0)
  {}

  /** A block from the kernel is its whole answer: the rounded size and eight bytes more. */
  lemma MallocFromKernel(h: Heap, n: int, m: int)
    requires Inv(h) && 0 < n < SIZE_LIMIT && KernelMay(h, n, m)
    requires !SomeFits(h.free, Align(n)) && KernelGives(Align(n), m)
    ensures var need := Align(n);
            Malloc(h, n, m) == Result(Heap(h.free, h.live[m := need + 8], h.regions + [Region(m, need + 32)]), m + 24)
  {
    AlignCovers(n);
    RefusedWhen(Align(n));
    FitsIffFound(h.free, Align(n));
  }

  // ---------------------------------------------------------------- realloc

  /** The free block k starts where the block of p ends, and the two together hold `need` bytes. */
  predicate Extends(h: Heap, p: int, need: int, k: int) {
    && p - HDR in h.live && 0 <= k < |h.free|
    && h.free[k].addr == p + h.live[p - HDR] && h.live[p - HDR] + 24 + h.free[k].size >= need
  }

  /** The block of p serves the request where it is. */
  ghost predicate ServedInPlace(h: Heap, p: int, need: int, r: Result) {
    && r.ptr == p && r.heap.regions == h.regions
    && p - HDR in r.heap.live && need <= r.heap.live[p - HDR] < need + 56
    && r.heap.live - {p - HDR} == h.live - {p - HDR}
  }

  /** A request that fits already stays where it is, and what is more than 55 bytes too much is given back. */
  lemma ReallocFits(h: Heap, p: int, n: int, m: int)
    requires Inv(h) && 0 < n < SIZE_LIMIT && p - HDR in h.live && Align(n) <= h.live[p - HDR]
    ensures ServedInPlace(h, p, Align(n), Realloc(h, p, n, m))
  {
    AlignCovers(n);
    NullIsDead(h, p);
    assert Realloc(h, p, n, m) == Result(Split(h, p - HDR, Align(n)), p);
  }

  /** If the block behind is free and large enough, the request is served where it is, whatever the kernel says. */
  lemma ReallocGrowsInPlace(h: Heap, p: int, n: int, m: int, k: int)
    requires Inv(h) && 0 < n < SIZE_LIMIT && p - HDR in h.live && Align(n) > h.live[p - HDR] && Extends(h, p, Align(n), k)
    ensures ServedInPlace(h, p, Align(n), Realloc(h, p, n, m))
  {
    AlignCovers(n);
    NullIsDead(h, p);
    FreeAddressesDiffer(h.free, k);
    assert Absorbable(h, p - HDR, Align(n)) == k;
    var g := Absorb(h, p - HDR, k);
    assert Realloc(h, p, n, m) == Result(Split(g, p - HDR, Align(n)), p);
    assert g.live - {p - HDR} == h.live - {p - HDR};
  }

  /** A request that nothing behind the block can serve moves. */
  lemma ReallocMustMove(h: Heap, p: int, n: int, m: int)
    requires Inv(h) && 0 < n < SIZE_LIMIT && p - HDR in h.live && KernelMay(h, n, m)
    requires Align(n) > h.live[p - HDR] && forall k :: !Extends(h, p, Align(n), k)
    ensures KernelMay(h, Align(n), m) && Malloc(h, Align(n), m) == Malloc(h, n, m)
    ensures var f := Malloc(h, n, m); Realloc(h, p, n, m) == if f.ptr == 0 then f else Result(Free(f.heap, p), f.ptr)
  {
    var need, k := Align(n), Absorbable(h, p - HDR, Align(n));
    AlignCovers(n);
    NullIsDead(h, p);
    assert Placed(LiveBlock(h.live, p - HDR));
    assert k < |h.free| ==> Extends(h, p, need, k);
    AlignIdempotent(n);
  }

  /** Then realloc fails exactly when malloc would; otherwise the block is malloc's, and the old one is gone. */
  lemma ReallocFailsWhen(h: Heap, p: int, n: int, m: int, r: Result)
    requires Inv(h) && 0 < n < SIZE_LIMIT && p - HDR in h.live && KernelMay(h, n, m)
    requires Align(n) > h.live[p - HDR] && forall k :: !Extends(h, p, Align(n), k)
    requires r == Realloc(h, p, n, m)
    ensures r.ptr == 0 <==> !SomeFits(h.free, Align(n)) && !KernelGives(Align(n), m)
    ensures r.ptr != 0 ==>
              && r.ptr == Malloc(h, n, m).ptr != p && p - HDR !in r.heap.live
              && r.ptr - HDR in r.heap.live && Align(n) <= r.heap.live[r.ptr - HDR] < Align(n) + 56
  {
    ReallocMustMove(h, p, n, m);
    MallocFailsWhen(h, n, m);
    MallocMeetsRequest(h, n, m);
    var f := Malloc(h, n, m);
    if f.ptr != 0 { OldGoesNewStays(h, p, Align(n), f, r); }
  }

  lemma OldGoesNewStays(h: Heap, p: int, need: int, f: Result, r: Result)
    requires Handed(h, need, f) && p - HDR in h.live && r == Result(Free(f.heap, p), f.ptr)
    ensures r.ptr != p && p - HDR !in r.heap.live
    ensures r.ptr - HDR in r.heap.live && need <= r.heap.live[r.ptr - HDR] < need + 56
  {
    assert p - HDR in f.heap.live - {f.ptr - HDR};
  }

  lemma NullIsDead(h: Heap, p: int)
    requires Inv(h) && p - HDR in h.live
    ensures p != 0
  {
    assert Placed(LiveBlock(h.live, p - HDR));
  }

  /** realloc to nothing gives the block back. */
  lemma ReallocToNothing(h: Heap, p: int, m: int)
    requires Inv(h) && p - HDR in h.live
    ensures var r := Realloc(h, p, 0, m);
            && r.ptr == 0 && r.heap.live == h.live - {p - HDR} && r.heap.regions == h.regions && Coalesced(r.heap.free)
            && forall x :: InFree(r.heap.free, x) <==> InFree(h.free, x) || LiveBlock(h.live, p - HDR).Contains(x)
  {
    NullIsDead(h, p);
    FreeKeepsInv(h, p);
  }

  /** realloc of NULL is malloc; realloc of a block that is not live fails, and changes nothing. */
  lemma ReallocOfNothing(h: Heap, p: int, n: int, m: int)
    requires Inv(h) && 0 < n < SIZE_LIMIT && KernelMay(h, n, m) && p - HDR !in h.live
    ensures p != 0 ==> Realloc(h, p, n, m) == Result(h, 0)
    ensures p == 0 ==>
              var r := Realloc(h, p, n, m);
              && (r.ptr == 0 <==> !SomeFits(h.free, Align(n)) && !KernelGives(Align(n), m))
              && (if r.ptr == 0 then r.heap == h else Handed(h, Align(n), r))
  {
    MallocFailsWhen(h, n, m);
    MallocMeetsRequest(h, n, m);
  }
}
