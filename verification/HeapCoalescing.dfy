/** The merging walk of uheap_coalesce: what one turn of its loop keeps, and where it ends. */
module HeapCoalescing {
  import opened HeapSpec
  import opened HeapLaws
  import opened HeapMemory

  // ---------------------------------------------------------------- merging two neighbours

  function Merging(m: Memory, b: Block, c: Block, next: int): (r: Memory) {
    m[b.addr := b.size + HDR + c.size][b.addr + 8 := next][c.addr + 16 := TAG_WIPED]
  }

  lemma MergingLinks(m: Memory, l: seq<Block>, i: nat)
    requires Ordered(l) && i + 1 < |l| && l[i].End() == l[i + 1].addr && Linked(m, l)
    ensures Linked(Merging(m, l[i], l[i + 1], AddrAt(l, i + 2)), l[..i] + [Join(l[i], l[i + 1])] + l[i + 2..])
  {
    var r, m' := l[..i] + [Join(l[i], l[i + 1])] + l[i + 2..], Merging(m, l[i], l[i + 1], AddrAt(l, i + 2));
    assert Placed(l[i]) && Placed(l[i + 1]);
    assert SlotOf(l, i + 1) == l[i].addr + 8;
    forall j | 0 <= j <= |l| && j != i + 1 && j != i + 2 ensures Rd(m', SlotOf(l, j)) == AddrAt(l, j) {
      if j > 0 {
        assert Placed(l[j - 1]);
        assert j - 1 < i ==> l[j - 1].End() <= l[i].addr;
        assert j - 1 > i + 1 ==> l[i + 1].End() <= l[j - 1].addr;
      }
    }
    forall j | 0 <= j <= |r| ensures Rd(m', SlotOf(r, j)) == AddrAt(r, j) {
      if j <= i {
        assert SlotOf(r, j) == SlotOf(l, j) && AddrAt(r, j) == AddrAt(l, j);
      } else if j == i + 1 {
        assert SlotOf(r, j) == l[i].addr + 8 && AddrAt(r, j) == AddrAt(l, i + 2);
      } else {
        assert SlotOf(r, j) == SlotOf(l, j + 1) && AddrAt(r, j) == AddrAt(l, j + 1);
      }
    }
  }

  lemma MergingHeaders(m: Memory, l: seq<Block>, i: nat, next: int)
    requires Ordered(l) && i + 1 < |l| && l[i].End() == l[i + 1].addr && FreeHeaders(m, l)
    ensures var m' := Merging(m, l[i], l[i + 1], next);
            FreeHeaders(m', l[..i] + [Join(l[i], l[i + 1])] + l[i + 2..]) && OnlyFreeChanged(m, m', l)
  {
    var r, m' := l[..i] + [Join(l[i], l[i + 1])] + l[i + 2..], Merging(m, l[i], l[i + 1], next);
    assert Placed(l[i]) && Placed(l[i + 1]);
    assert l[i].Contains(l[i].addr) && l[i].Contains(l[i].addr + 8) && l[i + 1].Contains(l[i + 1].addr + 16);
    forall j | 0 <= j < |l| && j != i && j != i + 1 ensures Rd(m', l[j].addr) == l[j].size && Rd(m', l[j].addr + 16) == TAG_FREE {
      assert Placed(l[j]);
      assert j < i ==> l[j].End() <= l[i].addr;
      assert j > i + 1 ==> l[i + 1].End() <= l[j].addr;
    }
    assert forall j :: 0 <= j < |r| ==> r[j] == if j < i then l[j] else if j == i then Join(l[i], l[i + 1]) else l[j + 1];
  }

  /** What uheap_coalesce keeps: memory m holds list l, whose first i blocks are final ... */
  ghost predicate CoalescingList(l0: seq<Block>, m: Memory, l: seq<Block>, i: int) {
    && 0 <= i <= |l| && Ordered(l) && Linked(m, l) && FreeHeaders(m, l)
    && Coalesce(l0) == l[..i] + Coalesce(l[i..])
  }

  /** ... and no byte outside the original list l0 has changed since m0. */
  ghost predicate CoalescingBytes(m0: Memory, l0: seq<Block>, m: Memory, l: seq<Block>) {
    && SameFreeBytes(l, l0) && Starts(l) <= Starts(l0)
    && OnlyFreeChanged(m0, m, l0)
    && Retired(m, Starts(l0))
  }

  ghost predicate SameFreeBytes(l: seq<Block>, l0: seq<Block>) {
    forall x :: InFree(l, x) <==> InFree(l0, x)
  }

  ghost function Starts(l: seq<Block>): (r: set<int>) {
    set i | 0 <= i < |l| :: l[i].addr
  }

  /** Every header at these addresses is marked free, or its magic number is gone. */
  ghost predicate Retired(m: Memory, s: set<int>) {
    forall a :: a in s ==> Rd(m, a + 16) == TAG_FREE || Rd(m, a + 16) == TAG_WIPED
  }

  ghost predicate Spaced(s: set<int>) {
    forall a, b :: a in s && b in s && a != b ==> a + HDR <= b || b + HDR <= a
  }

  ghost predicate InHeader(s: set<int>, x: int) {
    exists a :: a in s && a <= x < a + HDR
  }

  /** Only the list head and headers at these addresses may differ. */
  ghost predicate HeadersOnly(m: Memory, m': Memory, s: set<int>) {
    forall x :: Rd(m', x) == Rd(m, x) || x == LIST_SLOT || InHeader(s, x)
  }

  lemma MergingWritesHeaders(m0: Memory, m: Memory, s: set<int>, b: Block, c: Block, next: int)
    requires HeadersOnly(m0, m, s) && b.addr in s && c.addr in s
    ensures HeadersOnly(m0, Merging(m, b, c, next), s)
  {
    assert InHeader(s, b.addr) && InHeader(s, b.addr + 8) && InHeader(s, c.addr + 16);
  }

  lemma LinkingWritesHeaders(m: Memory, l: seq<Block>, k: int, b: Block)
    requires 0 <= k <= |l|
    ensures HeadersOnly(m, Linking(m, l, k, b), Starts(l[..k] + [b] + l[k..]))
  {
    var r := l[..k] + [b] + l[k..];
    assert r[k].addr in Starts(r) && InHeader(Starts(r), b.addr + 8) && InHeader(Starts(r), b.addr + 16);
    if k > 0 {
      assert r[k - 1].addr in Starts(r) && InHeader(Starts(r), l[k - 1].addr + 8);
    }
  }

  lemma StartsSpaced(l: seq<Block>)
    requires Ordered(l)
    ensures Spaced(Starts(l))
  {
    forall i, j | 0 <= i < j < |l| ensures l[i].addr + HDR <= l[j].addr {
      assert Placed(l[i]) && l[i].End() <= l[j].addr;
    }
  }

  lemma CoalescingStarts(m: Memory, l: seq<Block>)
    requires Ordered(l) && Linked(m, l) && FreeHeaders(m, l)
    ensures CoalescingList(l, m, l, 0) && CoalescingBytes(m, l, m, l)
  {
    assert Retired(m, Starts(l));
    assert l[..0] + Coalesce(l[0..]) == Coalesce(l) by { assert l[0..] == l; }
  }

  lemma CoalesceSkips(l: seq<Block>, i: int)
    requires 0 <= i && i + 1 < |l| && l[i].End() != l[i + 1].addr
    ensures l[..i] + Coalesce(l[i..]) == l[..i + 1] + Coalesce(l[i + 1..])
  {
    var t := l[i..];
    assert t[1..] == l[i + 1..];
    assert Coalesce(t) == [l[i]] + Coalesce(l[i + 1..]);
  }

  function Joined(l: seq<Block>, i: int): (r: seq<Block>)
    requires 0 <= i && i + 1 < |l|
  {
    l[..i] + [Join(l[i], l[i + 1])] + l[i + 2..]
  }

  lemma CoalesceJoins(l: seq<Block>, i: int)
    requires 0 <= i && i + 1 < |l| && l[i].End() == l[i + 1].addr
    ensures l[..i] + Coalesce(l[i..]) == Joined(l, i)[..i] + Coalesce(Joined(l, i)[i..])
  {
    var r := Joined(l, i);
    assert r[..i] == l[..i];
    assert r[i..] == [Join(l[i], l[i + 1])] + l[i + 2..] && l[i..][2..] == l[i + 2..];
  }

  /** The joined list starts where the old one does, and its blocks end where old blocks end. */
  lemma JoinedEnds(l: seq<Block>, i: int)
    requires 0 <= i && i + 1 < |l| && l[i].End() == l[i + 1].addr
    ensures var r := Joined(l, i);
            forall j :: 0 <= j < |r| ==> r[j].addr == (if j <= i then l[j].addr else l[j + 1].addr)
                                         && r[j].End() == (if j < i then l[j].End() else l[j + 1].End())
  {}

  lemma JoinedOrdered(l: seq<Block>, i: int)
    requires Ordered(l) && 0 <= i && i + 1 < |l| && l[i].End() == l[i + 1].addr
    ensures Ordered(Joined(l, i))
  {
    var r := Joined(l, i);
    JoinedEnds(l, i);
    assert Placed(l[i]) && Placed(l[i + 1]);
    JoinPlaced(l[i], l[i + 1]);
    assert forall j :: 0 <= j < |r| ==> r[j] == if j < i then l[j] else if j == i then Join(l[i], l[i + 1]) else l[j + 1];
  }

  lemma JoinedStarts(l: seq<Block>, i: int)
    requires 0 <= i && i + 1 < |l| && l[i].End() == l[i + 1].addr
    ensures Starts(Joined(l, i)) <= Starts(l) && l[i].addr in Starts(l) && l[i + 1].addr in Starts(l)
  {
    JoinedEnds(l, i);
  }

  lemma JoinedCovers(l: seq<Block>, i: int)
    requires Ordered(l) && 0 <= i && i + 1 < |l| && l[i].End() == l[i + 1].addr
    ensures SameFreeBytes(Joined(l, i), l)
  {
    var p, b, c, t := l[..i], l[i], l[i + 1], l[i + 2..];
    assert Placed(b) && Placed(c);
    JoinPlaced(b, c);
    assert l == p + ([b] + ([c] + t)) && Joined(l, i) == p + ([Join(b, c)] + t);
    ConsCovers(Join(b, c), t);
    ConsCovers(c, t);
    ConsCovers(b, [c] + t);
    forall x ensures InFree(Joined(l, i), x) <==> InFree(l, x) {
      ConcatCovers(p, [Join(b, c)] + t, x);
      ConcatCovers(p, [b] + ([c] + t), x);
    }
  }

  lemma RetiredKept(m: Memory, s: set<int>, b: Block, c: Block, next: int)
    requires Spaced(s) && Retired(m, s) && b.addr in s && c.addr in s && b.addr != c.addr
    ensures Retired(Merging(m, b, c, next), s)
  {
    forall a | a in s ensures a + 16 != b.addr && a + 16 != b.addr + 8 && (a != c.addr ==> a + 16 != c.addr + 16) {}
  }

  lemma CoalescingMergesList(l0: seq<Block>, m: Memory, l: seq<Block>, i: int)
    requires CoalescingList(l0, m, l, i) && i + 1 < |l| && l[i].End() == l[i + 1].addr
    ensures CoalescingList(l0, Merging(m, l[i], l[i + 1], AddrAt(l, i + 2)), Joined(l, i), i)
  {
    MergingLinks(m, l, i);
    MergingHeaders(m, l, i, AddrAt(l, i + 2));
    JoinedOrdered(l, i);
    CoalesceJoins(l, i);
  }

  lemma CoalescingMergesBytes(m0: Memory, l0: seq<Block>, m: Memory, l: seq<Block>, i: int)
    requires Ordered(l0) && Ordered(l) && FreeHeaders(m, l) && CoalescingBytes(m0, l0, m, l)
    requires 0 <= i && i + 1 < |l| && l[i].End() == l[i + 1].addr
    ensures CoalescingBytes(m0, l0, Merging(m, l[i], l[i + 1], AddrAt(l, i + 2)), Joined(l, i))
  {
    MergingHeaders(m, l, i, AddrAt(l, i + 2));
    JoinedStarts(l, i);
    JoinedCovers(l, i);
    StartsSpaced(l0);
    assert Placed(l[i]);
    RetiredKept(m, Starts(l0), l[i], l[i + 1], AddrAt(l, i + 2));
  }

  /** A next pointer that is not NULL leads to the next list element. */
  lemma NextIsLinked(m: Memory, l: seq<Block>, i: int)
    requires 0 <= i < |l| && Linked(m, l)
    ensures NextAt(m, l[i].addr) == AddrAt(l, i + 1)
  {
    assert SlotOf(l, i + 1) == l[i].addr + 8;
  }

  /** The three writes of uheap_coalesce, in the order of the code. */
  function MergingCode(m: Memory, cur: int, next: int): (r: Memory) {
    var m1 := m[cur := SizeAt(m, cur) + HDR + SizeAt(m, next)];
    var m2 := m1[cur + 8 := NextAt(m1, next)];
    m2[next + 16 := Tag(0, FreeAt(m2, next))]
  }

  lemma MergingWrites(m: Memory, l: seq<Block>, i: int)
    requires Ordered(l) && Linked(m, l) && FreeHeaders(m, l) && 0 <= i && i + 1 < |l|
    ensures MergingCode(m, l[i].addr, l[i + 1].addr) == Merging(m, l[i], l[i + 1], AddrAt(l, i + 2))
  {
    var b, c := l[i], l[i + 1];
    assert Placed(b) && b.End() <= c.addr;
    NextIsLinked(m, l, i + 1);
    assert Rd(m, c.addr + 16) == TAG_FREE && TAG_FREE / HALF == 1;
  }

  ghost predicate CoalescingAt(m0: Memory, l0: seq<Block>, m: Memory, l: seq<Block>, i: int, cur: int) {
    CoalescingList(l0, m, l, i) && CoalescingBytes(m0, l0, m, l) && HeadersOnly(m0, m, Starts(l0)) && cur == AddrAt(l, i)
  }

  /** One turn of the loop: merge when the blocks touch, otherwise move on. */
  lemma CoalescingTurns(m0: Memory, l0: seq<Block>, m: Memory, l: seq<Block>, i: int, cur: int)
    requires Ordered(l0) && CoalescingAt(m0, l0, m, l, i, cur) && cur != 0 && NextAt(m, cur) != 0
    ensures i + 1 < |l|
    ensures if cur + HDR + SizeAt(m, cur) == NextAt(m, cur)
            then CoalescingAt(m0, l0, MergingCode(m, cur, NextAt(m, cur)), Joined(l, i), i, cur)
            else CoalescingAt(m0, l0, m, l, i + 1, NextAt(m, cur))
  {
    NextIsLinked(m, l, i);
    assert SizeAt(m, cur) == l[i].size && NextAt(m, cur) == l[i + 1].addr;
    if l[i].End() == l[i + 1].addr {
      MergingWrites(m, l, i);
      CoalescingMergesList(l0, m, l, i);
      CoalescingMergesBytes(m0, l0, m, l, i);
      JoinedStarts(l, i);
      MergingWritesHeaders(m0, m, Starts(l0), l[i], l[i + 1], AddrAt(l, i + 2));
    } else {
      CoalesceSkips(l, i);
    }
  }

  /** When the walk stops, the list is the coalesced one. */
  lemma CoalescingEnds(l0: seq<Block>, m: Memory, l: seq<Block>, i: int)
    requires CoalescingList(l0, m, l, i) && (i == |l| || NextAt(m, l[i].addr) == 0)
    ensures l == Coalesce(l0)
  {
    if i < |l| {
      NextIsLinked(m, l, i);
      assert i + 1 < |l| ==> Placed(l[i + 1]);
      assert |l[i..]| == 1;
    }
    assert l == l[..i] + l[i..];
  }

  lemma CoalescedRep(h: Heap, m0: Memory, m: Memory, l: seq<Block>, i: int, cur: int, g: Heap)
    requires Shape(h) && Rep(m0, h) && CoalescingAt(m0, h.free, m, l, i, cur)
    requires (cur == 0 || NextAt(m, cur) == 0) && g == Heap(Coalesce(h.free), h.live, h.regions)
    ensures Shape(g) && Rep(m, g) && OnlyFreeChanged(m0, m, g.free)
    ensures HeadersOnly(m0, m, Starts(h.free)) && Retired(m, Starts(h.free))
  {
    assert i < |l| ==> Placed(l[i]);
    CoalescingEnds(h.free, m, l, i);
    SameBytesApart(h, l);
    LiveHeadersKept(m0, m, h);
  }

  /** Replacing the free list by one that covers the same bytes. */
  lemma SameBytesApart(h: Heap, l: seq<Block>)
    requires Shape(h) && Ordered(l) && SameFreeBytes(l, h.free)
    ensures Shape(Heap(l, h.live, h.regions))
  {
    forall a | a in h.live ensures ApartFromFree(l, LiveBlock(h.live, a)) {
      ApartByBytes(h.free, l, LiveBlock(h.live, a));
    }
  }
}
