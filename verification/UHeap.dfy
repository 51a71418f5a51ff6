/** The allocator as it runs: the pointer reads and writes of include/libc.h:2023-2213. */
module UHeapModule {
  import opened HeapSpec
  import opened HeapLaws
  import opened HeapTheorems
  import opened HeapMemory
  import opened HeapCoalescing
  import opened HeapCalls

  class UHeap {
    var mem: Memory
    ghost var h: Heap

    ghost predicate Valid()
      reads this
    {
      Inv(h) && Rep(mem, h)
    }

    /** The header in front of p says that p is not live, as every buried header does. */
    predicate Stale(p: int)
      reads this
    {
      MagicAt(mem, p - HDR) != MAGIC || FreeAt(mem, p - HDR) != 0
    }

    /** An empty free list over arbitrary memory. */
    constructor (m: Memory)
      ensures Valid() && h == EmptyHeap && mem == m[LIST_SLOT := 0]
    {
      mem := m[LIST_SLOT := 0];
      h := EmptyHeap;
    }

    /** uheap_insert_free */
    method InsertFree(b: int, ghost size: int)
      requires CanInsert(mem, h, Block(b, size))
      modifies this
      ensures h == Inserted(old(h), Block(b, size))
      ensures Shape(h) && Rep(mem, h)
      ensures OnlyFreeChanged(old(mem), mem, h.free) && HeadersOnly(old(mem), mem, Starts(h.free))
    {
      ghost var l, blk := h.free, Block(b, size);
      mem := mem[b + 16 := Tag(MagicAt(mem, b), 1)];
      assert Linked(mem, l) by {
        assert forall x :: blk.Contains(x) ==> !InFree(l, x);
        assert blk.Contains(b + 16);
        LinkedKept(old(mem), l, b + 16, TAG_FREE);
      }

      var pp := FindPlace(b);
      mem := mem[b + 8 := Rd(mem, pp)];
      mem := mem[pp := b];
      h := Inserted(h, blk);
      InsertingRep(old(mem), old(h), blk, mem, h);
    }

    /** Its loop: the slot that holds the address of the first block not below b. */
    method FindPlace(b: int) returns (pp: int)
      requires Ordered(h.free) && Linked(mem, h.free)
      ensures var k := Position(h.free, b); pp == SlotOf(h.free, k) && Rd(mem, pp) == AddrAt(h.free, k)
    {
      pp := LIST_SLOT;
      ghost var i := 0;
      ghost var k := Position(h.free, b);
      while Rd(mem, pp) != 0 && Rd(mem, pp) < b
        invariant 0 <= i <= k && pp == SlotOf(h.free, i)
        decreases k - i
      {
        pp := Rd(mem, pp) + 8;
        i := i + 1;
      }
      assert i == k by { assert Rd(mem, pp) == AddrAt(h.free, i); assert i < |h.free| ==> Placed(h.free[i]); }
    }

    /** The merge step of uheap_coalesce: the block at cur absorbs the block at next. */
    method MergeNext(cur: int, next: int)
      modifies this`mem
      ensures mem == MergingCode(old(mem), cur, next)
    {
      mem := mem[cur := SizeAt(mem, cur) + HDR + SizeAt(mem, next)];
      mem := mem[cur + 8 := NextAt(mem, next)];
      mem := mem[next + 16 := Tag(0, FreeAt(mem, next))];
    }

    /** uheap_coalesce */
    method CoalesceFree()
      requires Shape(h) && Rep(mem, h)
      modifies this
      ensures h == Heap(Coalesce(old(h).free), old(h).live, old(h).regions)
      ensures Shape(h) && Rep(mem, h) && OnlyFreeChanged(old(mem), mem, h.free)
      ensures HeadersOnly(old(mem), mem, Starts(old(h).free)) && Retired(mem, Starts(old(h).free))
    {
      var cur; ghost var l, i;
      cur, l, i := MergeWalk(h.free);
      h := Heap(Coalesce(h.free), h.live, h.regions);
      CoalescedRep(old(h), old(mem), mem, l, i, cur, h);
    }

    /** Its loop, over the words in memory. */
    method MergeWalk(ghost l0: seq<Block>) returns (cur: int, ghost l: seq<Block>, ghost i: int)
      requires Ordered(l0) && Linked(mem, l0) && FreeHeaders(mem, l0)
      modifies this`mem
      ensures CoalescingAt(old(mem), l0, mem, l, i, cur) && (cur == 0 || NextAt(mem, cur) == 0)
    {
      ghost var m0 := mem;
      l, i := l0, 0;
      CoalescingStarts(mem, l0);
      cur := Rd(mem, LIST_SLOT);
      assert cur == Rd(mem, SlotOf(l0, 0));
      while cur != 0 && NextAt(mem, cur) != 0
        invariant CoalescingAt(m0, l0, mem, l, i, cur)
        decreases |l| - i
        modifies this`mem
      {
        cur, l, i := CoalesceTurn(cur, m0, l0, l, i);
      }
    }

    /** One turn of its loop. */
    method CoalesceTurn(cur: int, ghost m0: Memory, ghost l0: seq<Block>, ghost l: seq<Block>, ghost i: int)
      returns (cur': int, ghost l': seq<Block>, ghost i': int)
      requires Ordered(l0) && CoalescingAt(m0, l0, mem, l, i, cur) && cur != 0 && NextAt(mem, cur) != 0
      modifies this`mem
      ensures CoalescingAt(m0, l0, mem, l', i', cur') && 0 <= |l'| - i' < |l| - i
    {
      CoalescingTurns(m0, l0, mem, l, i, cur);
      var next := NextAt(mem, cur);
      if cur + HDR + SizeAt(mem, cur) == next {
        ghost var m' := MergingCode(mem, cur, next);
        l', i' := Joined(l, i), i;
        assert CoalescingAt(m0, l0, m', l', i', cur);
        MergeNext(cur, next);
        assert mem == m';
        cur' := cur;
      } else {
        cur', l', i' := next, l, i + 1;
      }
    }

    /** free */
    method Free(p: int)
      requires Valid()
      requires p == 0 || p - HDR in h.live || Stale(p)
      modifies this
      ensures Valid() && h == HeapSpec.Free(old(h), p)
      ensures p - HDR !in old(h).live ==> mem == old(mem)
      ensures p - HDR in old(h).live ==> Stale(p) && Buried(mem, h.free, p - HDR)
      ensures forall a :: Buried(old(mem), old(h).free, a) ==> Buried(mem, h.free, a)
      ensures PayloadsKept(old(mem), mem, h.live) && HeapOnly(old(mem), mem, h)
    {
      LiveIsNotStale(mem, h, p - HDR);
      if p == 0 { return; }
      var a := p - HDR;
      if MagicAt(mem, a) != MAGIC { return; }
      if FreeAt(mem, a) != 0 { return; }
      FreeKeepsInv(h, p);
      ReleasedCanInsert(mem, h, a);
      ghost var size := h.live[a];
      h := Released(h, a);
      InsertFree(a, size);
      ghost var m1, l := mem, h.free;
      CoalesceFree();
      FreedFrame(old(h), p, old(mem), m1, mem);
      FreeBuries(old(h), p, l, old(mem), m1, mem);
    }

    /** uheap_split_if_needed */
    method SplitIfNeeded(a: int, need: int)
      requires Valid() && a in h.live && 0 <= need && need % 16 == 0
      modifies this
      ensures Valid() && h == Split(old(h), a, need)
      ensures SplitChanged(old(mem), mem, h.free, a)
    {
      LiveIsNotStale(mem, h, a);
      SplitKeepsInv(h, a, need);
      var remain := if SizeAt(mem, a) > need then SizeAt(mem, a) - need else 0;
      if remain < HDR + 32 { return; }
      SplitCanInsert(mem, h, a, need);
      ghost var r := Rest(h, a, need);
      var nh := a + HDR + need;
      mem := mem[nh := remain - HDR];
      mem := mem[nh + 8 := 0];
      mem := mem[nh + 16 := Tag(MAGIC, 1)];
      mem := mem[a := need];
      assert mem == Splitting(old(mem), r, a, need);
      h := Shrunk(h, a, need);
      InsertFree(nh, r.size);
      SplitFrame(old(mem), old(h), a, need, mem);
    }

    /** uheap_request_from_kernel; `answer` is what sbrk returns if it is called. */
    method RequestFromKernel(payload: int, answer: int) returns (b: int)
      requires Valid() && 0 <= payload < SIZE_LIMIT && payload % 16 == 0
      requires SbrkAnswer(h, RequestTotal(payload), answer)
      modifies this
      ensures Valid()
      ensures if RequestRefused(payload) || answer <= 0 then b == 0 && h == old(h) && mem == old(mem)
              else b == answer && h == Grow(old(h), answer, RequestTotal(payload))
                   && mem == Growing(old(mem), answer, RequestTotal(payload))
    {
      if payload > SIZE_LIMIT - 1 - HDR { return 0; }
      var total := (HDR + payload) % SIZE_LIMIT;
      total := Align(total);
      if total < payload { return 0; }
      if answer <= 0 { return 0; }
      RequestIsWhole(payload);
      GrowKeepsInv(h, answer, total);
      GrowingRep(mem, h, answer, total);
      mem := mem[answer := total - HDR];
      mem := mem[answer + 8 := 0];
      mem := mem[answer + 16 := Tag(MAGIC, 0)];
      h := Grow(h, answer, total);
      b := answer;
    }

    /** malloc's unlinking of the block at cur, the one behind prev. */
    method Unlink(prev: int, cur: int)
      modifies this`mem
      ensures mem == TakingCode(old(mem), if prev != 0 then prev + 8 else LIST_SLOT, cur)
    {
      if prev != 0 { mem := mem[prev + 8 := NextAt(mem, cur)]; } else { mem := mem[LIST_SLOT := NextAt(mem, cur)]; }
      mem := mem[cur + 8 := 0];
      mem := mem[cur + 16 := Tag(MagicAt(mem, cur), 0)];
    }

    /** malloc; `answer` is what sbrk returns if it is called. */
    method Malloc(n: int, answer: int) returns (p: int)
      requires Valid() && 0 <= n < SIZE_LIMIT && KernelMay(h, n, answer)
      modifies this
      ensures Valid() && HeapSpec.Malloc(old(h), n, answer) == Result(h, p)
      ensures PayloadsKept(old(mem), mem, old(h).live) && HeapOnly(old(mem), mem, h)
    {
      if n == 0 { return 0; }
      var need := Align(n);
      AlignCovers(n);
      var prev, cur := 0, Rd(mem, LIST_SLOT);
      ghost var i := 0;
      assert cur == Rd(mem, SlotOf(h.free, 0));
      while cur != 0
        invariant mem == old(mem) && h == old(h)
        invariant Searching(h.free, need, i, prev, cur)
        decreases |h.free| - i
      {
        SearchTurns(mem, h.free, need, i, prev, cur);
        if MagicAt(mem, cur) != MAGIC { assert false; }
        if FreeAt(mem, cur) != 0 && SizeAt(mem, cur) >= need {
          TakeFit(prev, cur, need, i);
          return cur + HDR;
        }
        prev, cur := cur, NextAt(mem, cur);
        i := i + 1;
      }
      SearchFails(h.free, need, i, prev);
      p := TakeFresh(n, need, answer);
    }

    /** malloc with a block from the list: unlink it and split off what is not needed. */
    method TakeFit(prev: int, cur: int, need: int, ghost i: int)
      requires Valid() && 0 <= need && need % 16 == 0 && 0 <= i < |h.free| && cur == h.free[i].addr && need <= h.free[i].size
      requires SlotOf(h.free, i) == if prev != 0 then prev + 8 else LIST_SLOT
      modifies this
      ensures Valid() && h == Split(Take(old(h), i), cur, need)
      ensures PayloadsKept(old(mem), mem, old(h).live) && HeapOnly(old(mem), mem, h)
    {
      TakingKeepsValid(mem, h, i);
      Unlink(prev, cur);
      h := Take(h, i);
      ghost var m1 := mem;
      SplitIfNeeded(cur, need);
      TakeAndSplitFrame(old(mem), m1, mem, old(h), i, need);
    }

    /** malloc with a block from the kernel. */
    method TakeFresh(n: int, need: int, answer: int) returns (p: int)
      requires Valid() && 0 < n < SIZE_LIMIT && need == Align(n) && KernelMay(h, n, answer)
      modifies this
      ensures Valid()
      ensures if RequestRefused(need) || answer <= 0 then p == 0 && h == old(h)
              else p == answer + HDR && h == Grow(old(h), answer, RequestTotal(need))
      ensures PayloadsKept(old(mem), mem, old(h).live) && HeapOnly(old(mem), mem, h)
    {
      AlignCovers(n);
      AlignIdempotent(n);
      var b := RequestFromKernel(need, answer);
      if b == 0 { return 0; }
      KernelSlack(n);
      GrowForRequest(old(h), answer, need, RequestTotal(need));
      SplitIfNeeded(b, need);
      GrowFrame(old(mem), mem, old(h), answer, need, RequestTotal(need));
      return b + HDR;
    }

    /** The loop of realloc that looks for a block on the free list. */
    method OnFreeList(b: int) returns (found: bool)
      requires Valid()
      ensures found <==> IndexOf(h.free, b) < |h.free|
    {
      var f := Rd(mem, LIST_SLOT);
      ghost var i := 0;
      assert f == Rd(mem, SlotOf(h.free, 0));
      while f != 0
        invariant 0 <= i <= |h.free| && f == AddrAt(h.free, i)
        invariant forall j :: 0 <= j < i ==> h.free[j].addr != b
        decreases |h.free| - i
      {
        if f == b { return true; }
        FreeHeaderReads(mem, h.free, i);
        f := NextAt(mem, f);
        i := i + 1;
      }
      assert forall j :: 0 <= j < |h.free| ==> Placed(h.free[j]);
      return false;
    }

    /** uheap_remove_free: unlink the block at b if the list holds it. */
    method RemoveFree(b: int)
      requires Ordered(h.free) && Linked(mem, h.free)
      modifies this`mem
      ensures var k := IndexOf(h.free, b);
              if k < |h.free| then mem == RemoveCode(old(mem), SlotOf(h.free, k), b)
              else mem == old(mem)
    {
      ghost var l, k := h.free, IndexOf(h.free, b);
      ListAddresses(l);
      var pp := LIST_SLOT;
      ghost var i := 0;
      while Rd(mem, pp) != 0
        invariant mem == old(mem)
        invariant 0 <= i <= k && pp == SlotOf(l, i) && Rd(mem, pp) == AddrAt(l, i)
        decreases |l| - i
      {
        if Rd(mem, pp) == b {
          mem := mem[pp := NextAt(mem, b)];
          mem := mem[b + 8 := 0];
          return;
        }
        pp := Rd(mem, pp) + 8;
        i := i + 1;
      }
    }

    /** memcpy between two live payloads, eight bytes at a time. */
    method CopyPayload(dst: int, src: int, size: int)
      requires Valid() && dst - HDR in h.live && src - HDR in h.live && dst != src
      requires size == h.live[src - HDR] && size <= h.live[dst - HDR]
      modifies this`mem
      ensures Valid() && SameWords(old(mem), src, mem, dst, size) && CopyChanged(old(mem), mem, dst, size)
    {
      assert Placed(LiveBlock(h.live, src - HDR)) && Apart(LiveBlock(h.live, src - HDR), LiveBlock(h.live, dst - HDR));
      var o := 0;
      while o < size
        invariant 0 <= o <= size && o % 8 == 0 && Valid()
        invariant SameWords(old(mem), src, mem, dst, o) && CopyChanged(old(mem), mem, dst, o)
      {
        PayloadWriteKeepsRep(mem, h, dst - HDR, dst + o, Rd(mem, src + o));
        ghost var m := mem;
        mem := mem[dst + o := Rd(mem, src + o)];
        assert Word(m, src, o / 8) == Word(old(mem), src, o / 8);
        assert forall i :: 0 <= i && 8 * i < o ==> Word(mem, dst, i) == Word(m, dst, i);
        o := o + 8;
      }
    }

    /** A caller stores a word in a live payload. */
    method Store(p: int, i: int, v: int)
      requires Valid() && p - HDR in h.live && 0 <= i && 8 * i + 8 <= h.live[p - HDR]
      modifies this`mem
      ensures Valid() && Word(mem, p, i) == v
      ensures forall x :: x != p + 8 * i ==> Rd(mem, x) == Rd(old(mem), x)
      ensures PayloadsKept(old(mem), mem, h.live - {p - HDR})
    {
      PayloadWriteKeepsRep(mem, h, p - HDR, p + 8 * i, v);
      mem := mem[p + 8 * i := v];
      CopyIsPrivate(old(mem), mem, h, p, h.live[p - HDR]);
    }

    /** realloc; `answer` is what sbrk returns if it is called. */
    method Realloc(p: int, n: int, answer: int) returns (r: int)
      requires Valid() && 0 <= n < SIZE_LIMIT && KernelMay(h, n, answer)
      requires p == 0 || p - HDR in h.live || MagicAt(mem, p - HDR) != MAGIC
      modifies this
      ensures Valid() && HeapSpec.Realloc(old(h), p, n, answer) == Result(h, r)
      ensures p - HDR in old(h).live && r != 0 ==> Moved(old(mem), old(h), p, mem, h, r)
      ensures r == 0 && n != 0 ==> h == old(h) && PayloadsKept(old(mem), mem, h.live)
      ensures p - HDR !in old(h).live ==> PayloadsKept(old(mem), mem, old(h).live)
      ensures HeapOnly(old(mem), mem, h)
    {
      LiveIsNotStale(mem, h, p - HDR);
      if p == 0 {
        r := Malloc(n, answer);
        MallocMeetsRequest(old(h), n, answer);
        return;
      }
      if n == 0 { Free(p); return 0; }
      if MagicAt(mem, p - HDR) != MAGIC { return 0; }
      r := ReallocLive(p, n, answer);
    }

    /** realloc of a live block to a nonzero size. */
    method ReallocLive(p: int, n: int, answer: int) returns (r: int)
      requires Valid() && 0 < n < SIZE_LIMIT && p - HDR in h.live && KernelMay(h, n, answer)
      modifies this
      ensures Valid() && HeapSpec.Realloc(old(h), p, n, answer) == Result(h, r)
      ensures r != 0 ==> Moved(old(mem), old(h), p, mem, h, r)
      ensures r == 0 ==> h == old(h) && PayloadsKept(old(mem), mem, h.live)
      ensures HeapOnly(old(mem), mem, h)
    {
      LiveIsNotStale(mem, h, p - HDR);
      var a := p - HDR;
      var need := Align(n);
      AlignCovers(n);
      if SizeAt(mem, a) >= need {
        SplitIfNeeded(a, need);
        ShrinkMoves(old(mem), mem, old(h), p, need);
        return p;
      }
      var next := a + HDR + SizeAt(mem, a);
      NextHeader(mem, h, a);
      var nextIsFree := false;
      if MagicAt(mem, next) == MAGIC && FreeAt(mem, next) == 1 {
        nextIsFree := OnFreeList(next);
      }
      if nextIsFree {
        if SizeAt(mem, next) > SIZE_LIMIT - 1 - SizeAt(mem, a) - HDR { assert false; }
        var combined := SizeAt(mem, a) + HDR + SizeAt(mem, next);
        if combined >= need {
          AbsorbNext(p, next, combined, need, Absorbable(h, a, need));
          return p;
        }
      }
      AlignIdempotent(n);
      assert Absorbable(h, a, need) == |h.free|;
      r := MoveTo(p, need, answer);
    }

    method WipeAndGrow(a: int, next: int, combined: int)
      modifies this`mem
      ensures mem == WipeCode(old(mem), a, next, combined)
    {
      mem := mem[next + 16 := Tag(0, FreeAt(mem, next))];
      mem := mem[a := combined];
    }

    method AbsorbBlock(a: int, next: int, combined: int, ghost k: nat)
      requires Valid() && a in h.live && k == IndexOf(h.free, next) < |h.free| && next == LiveBlock(h.live, a).End()
      requires combined == Join(LiveBlock(h.live, a), h.free[k]).size
      modifies this
      ensures Valid() && h == Absorb(old(h), a, k)
      ensures PayloadsKept(old(mem), mem, old(h).live) && HeapOnly(old(mem), mem, old(h))
    {
      AbsorbKeepsValid(mem, h, a, k);
      RemoveFree(next);
      WipeAndGrow(a, next, combined);
      h := Absorb(h, a, k);
    }

    /** realloc's second path: the block of p absorbs the free block at next. */
    method AbsorbNext(p: int, next: int, combined: int, need: int, ghost k: nat)
      requires Valid() && p - HDR in h.live && 0 <= need && need % 16 == 0
      requires k == Absorbable(h, p - HDR, need) < |h.free| && next == h.free[k].addr
      requires combined == Join(LiveBlock(h.live, p - HDR), h.free[k]).size
      modifies this
      ensures Valid() && h == Split(Absorb(old(h), p - HDR, k), p - HDR, need)
      ensures Moved(old(mem), old(h), p, mem, h, p) && HeapOnly(old(mem), mem, h)
    {
      AbsorbBlock(p - HDR, next, combined, k);
      ghost var m1 := mem;
      SplitIfNeeded(p - HDR, need);
      AbsorbMoves(old(mem), m1, mem, old(h), p, need, k);
    }

    /** realloc's third path: allocate, copy, free. */
    method MoveTo(p: int, need: int, answer: int) returns (r: int)
      requires Valid() && p - HDR in h.live && 0 < need < SIZE_LIMIT && h.live[p - HDR] < need
      requires Align(need) == need && KernelMay(h, need, answer)
      modifies this
      ensures Valid()
      ensures var f := HeapSpec.Malloc(old(h), need, answer);
              Result(h, r) == if f.ptr == 0 then f else Result(HeapSpec.Free(f.heap, p), f.ptr)
      ensures r != 0 ==> Moved(old(mem), old(h), p, mem, h, r)
      ensures r == 0 ==> h == old(h) && PayloadsKept(old(mem), mem, h.live)
      ensures HeapOnly(old(mem), mem, h)
    {
      MallocMeetsRequest(h, need, answer);
      r := Malloc(need, answer);
      if r == 0 { return; }
      ghost var g, m1 := h, mem;
      LiveIsNotStale(mem, h, p - HDR);
      CopyPayload(r, p, SizeAt(mem, p - HDR));
      ghost var m2 := mem;
      CopyIsPrivate(m1, m2, h, r, old(h).live[p - HDR]);
      Free(p);
      MoveMoves(old(mem), m1, m2, mem, old(h), p, need, Result(g, r));
    }
  }
}
