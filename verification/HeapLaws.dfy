/** What every heap operation keeps, and what it promises its callers. */
module HeapLaws {
  import opened HeapSpec

  // ---------------------------------------------------------------- lists of free blocks

  lemma ConcatCovers(l: seq<Block>, m: seq<Block>, x: int)
    ensures InFree(l + m, x) <==> InFree(l, x) || InFree(m, x)
  {
    var r := l + m;
    if InFree(r, x) {
      var i :| 0 <= i < |r| && r[i].Contains(x);
      assert if i < |l| then l[i].Contains(x) else m[i - |l|].Contains(x);
    }
    if InFree(l, x) {
      var i :| 0 <= i < |l| && l[i].Contains(x);
      assert r[i].Contains(x);
    }
    if InFree(m, x) {
      var i :| 0 <= i < |m| && m[i].Contains(x);
      assert r[|l| + i].Contains(x);
    }
  }

  lemma ConsCovers(b: Block, l: seq<Block>)
    ensures forall x :: InFree([b] + l, x) <==> b.Contains(x) || InFree(l, x)
  {
    forall x ensures InFree([b] + l, x) <==> b.Contains(x) || InFree(l, x) {
      ConcatCovers([b], l, x);
      assert b.Contains(x) ==> [b][0].Contains(x);
    }
  }

  /** Putting a block into a list, anywhere, adds its bytes. */
  lemma SpliceCovers(l: seq<Block>, k: nat, b: Block)
    requires k <= |l|
    ensures forall x :: InFree(l[..k] + [b] + l[k..], x) <==> InFree(l, x) || b.Contains(x)
  {
    forall x ensures InFree(l[..k] + [b] + l[k..], x) <==> InFree(l, x) || b.Contains(x) {
      ConcatCovers(l[..k], l[k..], x);
      ConcatCovers(l[..k], [b] + l[k..], x);
      ConsCovers(b, l[k..]);
      assert l[..k] + l[k..] == l && l[..k] + [b] + l[k..] == l[..k] + ([b] + l[k..]);
    }
  }

  lemma InsertCovers(l: seq<Block>, b: Block)
    ensures forall x :: InFree(Insert(l, b), x) <==> InFree(l, x) || b.Contains(x)
  {
    SpliceCovers(l, Position(l, b.addr), b);
  }

  lemma RemoveCovers(l: seq<Block>, k: nat)
    requires k < |l|
    ensures forall x :: InFree(l, x) <==> InFree(RemoveAt(l, k), x) || l[k].Contains(x)
  {
    var r := RemoveAt(l, k);
    assert r[..k] + [l[k]] + r[k..] == l;
    SpliceCovers(r, k, l[k]);
  }

  /** Where a block that overlaps none of the list belongs. */
  lemma PositionSplits(l: seq<Block>, b: Block)
    requires Ordered(l) && Placed(b) && ApartFromFree(l, b)
    ensures forall i :: 0 <= i < Position(l, b.addr) ==> l[i].End() <= b.addr
    ensures forall i :: Position(l, b.addr) <= i < |l| ==> b.End() <= l[i].addr
  {
    var k := Position(l, b.addr);
    forall i | k <= i < |l| ensures b.End() <= l[i].addr {
      assert Apart(l[i], b) && Placed(l[i]) && Placed(l[k]);
      assert i == k || l[k].End() <= l[i].addr;
    }
    forall i | 0 <= i < k ensures l[i].End() <= b.addr {
      assert Apart(l[i], b) && l[i].addr < b.addr;
    }
  }

  lemma InsertedAt(l: seq<Block>, b: Block)
    ensures var k, r := Position(l, b.addr), Insert(l, b);
            |r| == |l| + 1 && forall i :: 0 <= i < |r| ==> r[i] == if i < k then l[i] else if i == k then b else l[i - 1]
  {}

  lemma InsertKeepsOrder(l: seq<Block>, b: Block)
    requires Ordered(l) && Placed(b) && ApartFromFree(l, b)
    ensures Ordered(Insert(l, b))
  {
    PositionSplits(l, b);
    var k, r := Position(l, b.addr), Insert(l, b);
    InsertedAt(l, b);
    forall i | 0 <= i < |r| ensures Placed(r[i]) {
      assert i < k ==> Placed(l[i]);
      assert i > k ==> Placed(l[i - 1]);
    }
    forall i, j | 0 <= i < j < |r| ensures r[i].End() <= r[j].addr {
      if i < k && j > k { assert l[i].End() <= l[j - 1].addr; }
      if i > k { assert l[i - 1].End() <= l[j - 1].addr; }
    }
  }

  lemma RemoveKeepsOrder(l: seq<Block>, k: nat)
    requires Ordered(l) && k < |l|
    ensures Ordered(RemoveAt(l, k)) && ApartFromFree(RemoveAt(l, k), l[k])
  {
    var r := RemoveAt(l, k);
    assert forall i :: 0 <= i < |r| ==> r[i] == if i < k then l[i] else l[i + 1];
  }

  /** Header and payload bytes held by the blocks of a list. */
  function Footprint(l: seq<Block>): (r: int) {
    if l == [] then 0 else HDR + l[0].size + Footprint(l[1..])
  }

  /** A block in front of a non-empty ordered list. */
  lemma ConsOrdered(b: Block, l: seq<Block>)
    requires Placed(b) && Ordered(l) && (l != [] ==> b.End() <= l[0].addr)
    ensures Ordered([b] + l)
  {
    var r := [b] + l;
    forall i | 1 <= i < |r| ensures r[i] == l[i - 1] && b.End() <= r[i].addr {
      assert Placed(l[0]);
      assert i == 1 || l[0].End() <= l[i - 1].addr;
    }
  }

  lemma TailOrdered(l: seq<Block>)
    requires Ordered(l) && l != []
    ensures Ordered(l[1..]) && l == [l[0]] + l[1..]
  {
    var t := l[1..];
    assert forall i :: 0 <= i < |t| ==> t[i] == l[i + 1];
  }

  lemma JoinPlaced(b: Block, c: Block)
    requires Placed(b) && Placed(c) && b.End() == c.addr
    ensures Placed(Join(b, c)) && Join(b, c).End() == c.End()
    ensures forall x :: Join(b, c).Contains(x) <==> b.Contains(x) || c.Contains(x)
  {}

  lemma JoinFirstTwo(b: Block, c: Block, t: seq<Block>)
    requires Ordered([b] + ([c] + t)) && b.End() == c.addr
    ensures Ordered([Join(b, c)] + t) && Footprint([Join(b, c)] + t) == Footprint([b] + ([c] + t))
    ensures forall x :: InFree([Join(b, c)] + t, x) <==> InFree([b] + ([c] + t), x)
  {
    var l, u := [b] + ([c] + t), [c] + t;
    TailOrdered(l);
    assert l[1..] == u && l[0] == b && u[0] == c && u[1..] == t;
    TailOrdered(u);
    assert Placed(l[0]) && Placed(u[0]) && (t != [] ==> u[0].End() <= u[1].addr);
    JoinPlaced(b, c);
    ConsOrdered(Join(b, c), t);
    ConsCovers(Join(b, c), t);
    ConsCovers(c, t);
    ConsCovers(b, u);
    assert ([Join(b, c)] + t)[1..] == t;
  }

  /** Coalescing neither gains nor loses a byte, and leaves no two adjacent blocks. */
  lemma {:induction false} CoalesceMerges(l: seq<Block>)
    requires Ordered(l)
    ensures Ordered(Coalesce(l)) && Coalesced(Coalesce(l))
    ensures Footprint(Coalesce(l)) == Footprint(l)
    ensures forall x :: InFree(Coalesce(l), x) <==> InFree(l, x)
    ensures l != [] ==> Coalesce(l) != [] && Coalesce(l)[0].addr == l[0].addr
    decreases |l|
  {
    if |l| <= 1 {
    } else if l[0].End() == l[1].addr {
      assert l == [l[0]] + ([l[1]] + l[2..]);
      JoinFirstTwo(l[0], l[1], l[2..]);
      CoalesceMerges([Join(l[0], l[1])] + l[2..]);
    } else {
      var t := l[1..];
      TailOrdered(l);
      CoalesceMerges(t);
      var c := Coalesce(t);
      ConsCovers(l[0], t);
      ConsCovers(l[0], c);
      ConsOrdered(l[0], c);
      var r := [l[0]] + c;
      assert r[1..] == c;
      forall i | 0 <= i < |r| - 1 ensures r[i].End() != r[i + 1].addr {
        assert i > 0 ==> c[i - 1].End() != c[i].addr;
      }
    }
  }

  /** The byte right behind the first block of a coalesced list is in none of its blocks. */
  lemma FirstGap(l: seq<Block>)
    requires Ordered(l) && Coalesced(l) && l != []
    ensures !InFree(l, l[0].End())
  {
    forall i | 0 <= i < |l| ensures !l[i].Contains(l[0].End()) {
      if i >= 1 {
        assert l[0].End() <= l[1].addr && l[0].End() != l[1].addr && Placed(l[1]);
        assert i == 1 || l[1].End() <= l[i].addr;
      }
    }
  }

  lemma FirstByte(l: seq<Block>)
    requires Ordered(l) && l != []
    ensures forall x :: l[0].Contains(x) ==> InFree(l, x)
    ensures forall x :: InFree(l, x) ==> l[0].addr <= x
    ensures forall x :: InFree(l[1..], x) <==> InFree(l, x) && l[0].End() <= x
  {
    var t := l[1..];
    TailOrdered(l);
    ConsCovers(l[0], t);
    assert Placed(l[0]);
    forall x | InFree(t, x) ensures l[0].End() <= x {
      var i :| 0 <= i < |t| && t[i].Contains(x);
      assert l[0].End() <= l[i + 1].addr;
    }
  }

  /** Coalesced lists are canonical: the bytes they cover determine them. */
  lemma {:induction false} CoalescedIsUnique(l: seq<Block>, m: seq<Block>)
    requires Ordered(l) && Coalesced(l) && Ordered(m) && Coalesced(m)
    requires forall x :: InFree(l, x) <==> InFree(m, x)
    ensures l == m
    decreases |l|
  {
    if l != [] { FirstByte(l); FirstGap(l); assert l[0].Contains(l[0].addr) && InFree(m, l[0].addr); }
    if m != [] { FirstByte(m); FirstGap(m); assert m[0].Contains(m[0].addr) && InFree(l, m[0].addr); }
    if l != [] {
      assert l[0].addr == m[0].addr;
      assert l[0].End() == m[0].End() by {
        assert !InFree(m, l[0].End()) && !InFree(l, m[0].End());
        assert !m[0].Contains(l[0].End()) && !l[0].Contains(m[0].End());
      }
      TailOrdered(l);
      TailOrdered(m);
      assert forall i :: 0 <= i < |l[1..]| ==> l[1..][i] == l[i + 1];
      assert forall i :: 0 <= i < |m[1..]| ==> m[1..][i] == m[i + 1];
      CoalescedIsUnique(l[1..], m[1..]);
    }
  }

  // ---------------------------------------------------------------- single operations

  ghost predicate SameBytes(h: Heap, g: Heap) {
    forall x :: InFree(h.free, x) || InLive(h.live, x) <==> InFree(g.free, x) || InLive(g.live, x)
  }

  lemma LiveUpdateCovers(live: map<int, int>, a: int, s: int)
    ensures forall x :: InLive(live[a := s], x) <==> Block(a, s).Contains(x) || InLive(live - {a}, x)
  {
    var l2, l0 := live[a := s], live - {a};
    forall x ensures InLive(l2, x) <==> Block(a, s).Contains(x) || InLive(l0, x) {
      if InLive(l2, x) {
        var b :| b in l2 && LiveBlock(l2, b).Contains(x);
        if b != a { assert b in l0 && LiveBlock(l0, b).Contains(x); }
      }
      if Block(a, s).Contains(x) { assert a in l2 && LiveBlock(l2, a).Contains(x); }
      if InLive(l0, x) {
        var b :| b in l0 && LiveBlock(l0, b).Contains(x);
        assert b in l2 && LiveBlock(l2, b).Contains(x);
      }
    }
  }

  lemma LiveRemoveCovers(live: map<int, int>, a: int)
    requires a in live
    ensures forall x :: InLive(live, x) <==> LiveBlock(live, a).Contains(x) || InLive(live - {a}, x)
  {
    assert live == live[a := live[a]];
    LiveUpdateCovers(live, a, live[a]);
  }

  /** The part of the region arithmetic in uheap_split_if_needed. */
  lemma SplitParts(h: Heap, a: int, need: int)
    requires Shape(h) && a in h.live && 0 <= need && need % 16 == 0 && h.live[a] - need >= MIN_SPLIT
    ensures var rest := Rest(h, a, need);
            Placed(rest) && Placed(Block(a, need)) && rest.End() == LiveBlock(h.live, a).End()
            && ApartFromFree(h.free, rest) && ApartFromFree(h.free, Block(a, need))
            && Apart(rest, Block(a, need))
  {
    var b := LiveBlock(h.live, a);
    assert Placed(b);
    PartsPlaced(b, need);
    assert ApartFromFree(h.free, b);
    forall i | 0 <= i < |h.free| ensures Apart(h.free[i], Rest(h, a, need)) && Apart(h.free[i], Block(a, need)) {
      assert Apart(h.free[i], b) && Placed(h.free[i]);
      PartApart(b, Rest(h, a, need), h.free[i]);
      PartApart(b, Block(a, need), h.free[i]);
    }
  }

  lemma PartsPlaced(b: Block, need: int)
    requires Placed(b) && 0 <= need && need % 16 == 0 && b.size - need >= MIN_SPLIT
    ensures Placed(Block(b.addr, need)) && Placed(Block(b.addr + HDR + need, b.size - need - HDR))
  {
    var n, s, a := need / 16, b.size / 8, b.addr / 8;
    assert need == 8 * (2 * n) && b.size == 8 * s && b.addr == 8 * a;
    Multiple(2 * n);
    Multiple(s - 2 * n - 3);
    Multiple(a + 3 + 2 * n);
    assert b.size - need - HDR == 8 * (s - 2 * n - 3) && b.addr + HDR + need == 8 * (a + 3 + 2 * n);
  }

  lemma Multiple(k: int)
    ensures 8 * k % 8 == 0
  {}

  lemma PartApart(b: Block, part: Block, c: Block)
    requires b.addr <= part.addr && part.End() <= b.End() && Apart(c, b)
    ensures Apart(c, part)
  {}

  lemma SplitKeepsInv(h: Heap, a: int, need: int)
    requires Inv(h) && a in h.live && 0 <= need && need % 16 == 0
    ensures Inv(Split(h, a, need)) && SameBytes(h, Split(h, a, need))
  {
    if h.live[a] - need >= MIN_SPLIT {
      var rest := Rest(h, a, need);
      var g := Split(h, a, need);
      SplitParts(h, a, need);
      InsertKeepsOrder(h.free, rest);
      InsertCovers(h.free, rest);
      LiveUpdateCovers(h.live, a, need);
      LiveRemoveCovers(h.live, a);
      assert forall x :: LiveBlock(h.live, a).Contains(x) <==> Block(a, need).Contains(x) || rest.Contains(x);
      assert SameBytes(h, g);
      forall b | b in g.live && b != a
        ensures Placed(LiveBlock(g.live, b)) && Apart(LiveBlock(g.live, a), LiveBlock(g.live, b))
        ensures Apart(rest, LiveBlock(g.live, b)) && ApartFromFree(h.free, LiveBlock(g.live, b))
      {
        assert LiveBlock(g.live, b) == LiveBlock(h.live, b);
        assert Apart(LiveBlock(h.live, a), LiveBlock(h.live, b)) && Placed(LiveBlock(h.live, a)) && Placed(LiveBlock(h.live, b));
      }
      assert LiveApart(g.live) by {
        forall b, c | b in g.live && c in g.live && b != c ensures Apart(LiveBlock(g.live, b), LiveBlock(g.live, c)) {
          if b != a && c != a { assert Apart(LiveBlock(h.live, b), LiveBlock(h.live, c)); }
        }
      }
      forall b | b in g.live ensures ApartFromFree(g.free, LiveBlock(g.live, b)) {
        InsertApart(h.free, rest, LiveBlock(g.live, b));
      }
    }
  }

  lemma InsertApart(l: seq<Block>, b: Block, c: Block)
    requires ApartFromFree(l, c) && Apart(b, c)
    ensures ApartFromFree(Insert(l, b), c)
  {
    var k, r := Position(l, b.addr), Insert(l, b);
    assert forall i :: 0 <= i < |r| ==> r[i] == if i < k then l[i] else if i == k then b else l[i - 1];
  }

  lemma TakeKeepsInv(h: Heap, i: nat)
    requires Inv(h) && i < |h.free|
    ensures Inv(Take(h, i)) && SameBytes(h, Take(h, i)) && h.free[i].addr !in h.live
  {
    var b, g := h.free[i], Take(h, i);
    assert Placed(b);
    assert forall a :: a in h.live ==> Placed(LiveBlock(h.live, a)) && Apart(b, LiveBlock(h.live, a));
    RemoveKeepsOrder(h.free, i);
    RemoveCovers(h.free, i);
    LiveUpdateCovers(h.live, b.addr, b.size);
    assert h.live - {b.addr} == h.live;
    assert forall j :: 0 <= j < |g.free| ==> g.free[j] == if j < i then h.free[j] else h.free[j + 1];
    forall a | a in h.live
      ensures LiveBlock(g.live, a) == LiveBlock(h.live, a) && Apart(b, LiveBlock(h.live, a))
      ensures ApartFromFree(g.free, LiveBlock(g.live, a))
    {
      assert ApartFromFree(h.free, LiveBlock(h.live, a));
    }
    assert LiveBlock(g.live, b.addr) == b;
    assert LiveApart(g.live) by {
      forall x, y | x in g.live && y in g.live && x != y ensures Apart(LiveBlock(g.live, x), LiveBlock(g.live, y)) {
        if x != b.addr && y != b.addr { assert Apart(LiveBlock(h.live, x), LiveBlock(h.live, y)); }
      }
    }
  }

  lemma ReleaseKeepsShape(h: Heap, a: int)
    requires Shape(h) && a in h.live
    ensures var g := Heap(h.free, h.live - {a}, h.regions);
            Shape(g) && ApartFromFree(h.free, LiveBlock(h.live, a)) && Placed(LiveBlock(h.live, a))
    ensures forall b :: b in h.live - {a} ==> Apart(LiveBlock(h.live, a), LiveBlock(h.live, b))
  {
    var g := Heap(h.free, h.live - {a}, h.regions);
    forall b | b in g.live ensures LiveBlock(g.live, b) == LiveBlock(h.live, b) {}
  }

  lemma FreeKeepsInv(h: Heap, p: int)
    requires Inv(h)
    ensures Inv(Free(h, p)) && SameBytes(h, Free(h, p))
    ensures p - HDR in h.live ==> Coalesced(Free(h, p).free)
    ensures p - HDR in h.live ==> Footprint(Free(h, p).free) == Footprint(h.free) + HDR + h.live[p - HDR]
    ensures p - HDR in h.live ==>
              forall x :: InFree(Free(h, p).free, x) <==> InFree(h.free, x) || LiveBlock(h.live, p - HDR).Contains(x)
  {
    var a := p - HDR;
    if a in h.live {
      var b, g := LiveBlock(h.live, a), Free(h, p);
      ReleaseKeepsShape(h, a);
      InsertKeepsOrder(h.free, b);
      InsertCovers(h.free, b);
      InsertFootprint(h.free, b);
      var l := Insert(h.free, b);
      CoalesceMerges(l);
      LiveRemoveCovers(h.live, a);
      forall c | c in g.live ensures ApartFromFree(g.free, LiveBlock(g.live, c)) {
        InsertApart(h.free, b, LiveBlock(g.live, c));
        ApartByBytes(l, g.free, LiveBlock(g.live, c));
      }
    }
  }

  lemma {:induction false} FootprintSplit(l: seq<Block>, k: nat)
    requires k <= |l|
    ensures Footprint(l) == Footprint(l[..k]) + Footprint(l[k..])
  {
    if k > 0 {
      FootprintSplit(l[1..], k - 1);
      assert l[1..][..k - 1] == l[..k][1..] && l[1..][k - 1..] == l[k..];
    } else {
      assert l[0..] == l;
    }
  }

  lemma InsertFootprint(l: seq<Block>, b: Block)
    ensures Footprint(Insert(l, b)) == Footprint(l) + HDR + b.size
  {
    var k, r := Position(l, b.addr), Insert(l, b);
    FootprintSplit(l, k);
    FootprintSplit(r, k);
    assert r[..k] == l[..k] && r[k..] == [b] + l[k..] && r[k..][1..] == l[k..];
  }

  /** Two blocks that share no byte are apart. */
  lemma ApartIfDisjoint(b: Block, c: Block)
    requires 0 <= b.size && 0 <= c.size
    requires forall x :: b.Contains(x) ==> !c.Contains(x)
    ensures Apart(b, c)
  {
    assert b.Contains(b.addr) && c.Contains(c.addr);
    assert b.Contains(c.addr) ==> !c.Contains(c.addr);
  }

  /** A block that shares no byte with one list shares none with a list covering the same bytes. */
  lemma ApartByBytes(l: seq<Block>, m: seq<Block>, c: Block)
    requires Ordered(m) && ApartFromFree(l, c) && Placed(c)
    requires forall x :: InFree(m, x) <==> InFree(l, x)
    ensures ApartFromFree(m, c)
  {
    forall i | 0 <= i < |m| ensures Apart(m[i], c) {
      assert Placed(m[i]);
      forall x | m[i].Contains(x) ensures !c.Contains(x) {
        assert InFree(m, x);
        var j :| 0 <= j < |l| && l[j].Contains(x);
        assert Apart(l[j], c);
      }
      ApartIfDisjoint(m[i], c);
    }
  }

  /** Giving the block at a size s, apart from the other live blocks. */
  lemma LiveUpdateApart(live: map<int, int>, a: int, s: int)
    requires LiveApart(live) && Placed(Block(a, s))
    requires forall e :: e in live && e != a ==> Apart(Block(a, s), LiveBlock(live, e))
    ensures LiveApart(live[a := s])
  {
    var l2 := live[a := s];
    forall x | x in l2 ensures Placed(LiveBlock(l2, x)) {
      if x != a { assert LiveBlock(l2, x) == LiveBlock(live, x); }
    }
    forall x, y | x in l2 && y in l2 && x != y ensures Apart(LiveBlock(l2, x), LiveBlock(l2, y)) {
      if x == a { assert Apart(Block(a, s), LiveBlock(live, y)); }
      else if y == a { assert Apart(Block(a, s), LiveBlock(live, x)); }
      else { assert Apart(LiveBlock(live, x), LiveBlock(live, y)); }
    }
  }

  /** Memory the kernel hands out is apart from every block. */
  lemma FreshApart(h: Heap, b: Block)
    requires Inv(h) && Placed(b) && forall x :: InRegions(h.regions, x) ==> !b.Contains(x)
    ensures ApartFromFree(h.free, b) && forall a :: a in h.live ==> a != b.addr && Apart(b, LiveBlock(h.live, a))
  {
    forall i | 0 <= i < |h.free| ensures Apart(h.free[i], b) {
      assert Placed(h.free[i]);
      assert forall x :: h.free[i].Contains(x) ==> InFree(h.free, x);
      ApartIfDisjoint(h.free[i], b);
    }
    forall a | a in h.live ensures Apart(b, LiveBlock(h.live, a)) && a != b.addr {
      var c := LiveBlock(h.live, a);
      assert Placed(c);
      assert forall x :: c.Contains(x) ==> InLive(h.live, x);
      ApartIfDisjoint(c, b);
    }
  }

  lemma RegionAdded(rs: seq<Region>, r: Region)
    ensures forall x :: InRegions(rs + [r], x) <==> InRegions(rs, x) || r.Contains(x)
  {
    forall x ensures InRegions(rs + [r], x) <==> InRegions(rs, x) || r.Contains(x) {
      if InRegions(rs + [r], x) {
        var i :| 0 <= i < |rs + [r]| && (rs + [r])[i].Contains(x);
        assert i < |rs| ==> rs[i].Contains(x);
      }
      if InRegions(rs, x) {
        var i :| 0 <= i < |rs| && rs[i].Contains(x);
        assert (rs + [r])[i].Contains(x);
      }
      if r.Contains(x) { assert (rs + [r])[|rs|].Contains(x); }
    }
  }

  lemma GrowKeepsInv(h: Heap, m: int, total: int)
    requires Inv(h) && SbrkAnswer(h, total, m) && m > 0 && HDR <= total && total % 8 == 0
    ensures Inv(Grow(h, m, total)) && m !in h.live
  {
    var b, g := Block(m, total - HDR), Grow(h, m, total);
    forall x | InRegions(h.regions, x) ensures !b.Contains(x) {
      var i :| 0 <= i < |h.regions| && h.regions[i].Contains(x);
    }
    FreshApart(h, b);
    LiveUpdateApart(h.live, m, total - HDR);
    assert h.live - {m} == h.live;
    LiveUpdateCovers(h.live, m, total - HDR);
    RegionAdded(h.regions, Region(m, total));
    assert forall a :: a in h.live ==> LiveBlock(g.live, a) == LiveBlock(h.live, a);
    assert LiveBlock(g.live, m) == b;
  }

  /** A block apart from two adjacent blocks is apart from their union. */
  lemma JoinApart(b: Block, c: Block, d: Block)
    requires Placed(b) && Placed(c) && Placed(d) && c.addr == b.End() && Apart(b, d) && Apart(c, d)
    ensures Apart(Join(b, c), d)
  {}

  lemma AbsorbKeepsInv(h: Heap, a: int, k: nat)
    requires Inv(h) && a in h.live && k < |h.free| && h.free[k].addr == LiveBlock(h.live, a).End()
    ensures Inv(Absorb(h, a, k)) && SameBytes(h, Absorb(h, a, k))
  {
    AbsorbKeepsBytes(h, a, k);
    AbsorbKeepsShape(h, a, k);
  }

  lemma AbsorbKeepsBytes(h: Heap, a: int, k: nat)
    requires Shape(h) && a in h.live && k < |h.free| && h.free[k].addr == LiveBlock(h.live, a).End()
    ensures SameBytes(h, Absorb(h, a, k))
  {
    var b, c := LiveBlock(h.live, a), h.free[k];
    assert Placed(b) && Placed(c);
    RemoveCovers(h.free, k);
    assert forall x :: Join(b, c).Contains(x) <==> b.Contains(x) || c.Contains(x);
    assert Block(a, Join(b, c).size) == Join(b, c);
    LiveUpdateCovers(h.live, a, Join(b, c).size);
    LiveRemoveCovers(h.live, a);
  }

  lemma AbsorbKeepsShape(h: Heap, a: int, k: nat)
    requires Shape(h) && a in h.live && k < |h.free| && h.free[k].addr == LiveBlock(h.live, a).End()
    ensures Shape(Absorb(h, a, k))
  {
    var b, c, g := LiveBlock(h.live, a), h.free[k], Absorb(h, a, k);
    assert Placed(b) && Placed(c);
    RemoveKeepsOrder(h.free, k);
    assert forall j :: 0 <= j < |g.free| ==> g.free[j] == if j < k then h.free[j] else h.free[j + 1];
    assert LiveBlock(g.live, a) == Join(b, c);
    assert ApartFromFree(h.free, b);
    forall j | 0 <= j < |g.free| ensures Apart(g.free[j], Join(b, c)) {
      assert Apart(g.free[j], b) && Apart(g.free[j], c) && Placed(g.free[j]);
      JoinApart(b, c, g.free[j]);
    }
    forall e | e in h.live && e != a
      ensures LiveBlock(g.live, e) == LiveBlock(h.live, e) && Apart(Join(b, c), LiveBlock(h.live, e))
      ensures ApartFromFree(g.free, LiveBlock(g.live, e))
    {
      var d := LiveBlock(h.live, e);
      assert ApartFromFree(h.free, d) && Apart(b, d) && Placed(d);
      assert Apart(c, d);
      JoinApart(b, c, d);
    }
    JoinPlaced(b, c);
    LiveUpdateApart(h.live, a, Join(b, c).size);
  }
}
