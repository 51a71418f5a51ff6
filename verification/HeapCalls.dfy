/** The memory writes of malloc, realloc and the kernel request, and what callers see of them. */
module HeapCalls {
  import opened HeapSpec
  import opened HeapLaws
  import opened HeapTheorems
  import opened HeapMemory
  import opened HeapCoalescing

  // ---------------------------------------------------------------- writes for one heap operation

  lemma LinkedKept(m: Memory, l: seq<Block>, x: int, v: int)
    requires Ordered(l) && Linked(m, l) && x != LIST_SLOT && !InFree(l, x)
    ensures Linked(m[x := v], l)
  {
    forall i | 0 <= i <= |l| ensures SlotOf(l, i) != x {
      if i > 0 { assert Placed(l[i - 1]) && l[i - 1].Contains(SlotOf(l, i)); }
    }
  }

  /** A word that is in no free block and in no live header may take any value. */
  lemma RepKept(m: Memory, h: Heap, x: int, v: int)
    requires Shape(h) && Rep(m, h) && x != LIST_SLOT && !InFree(h.free, x)
    requires forall a :: a in h.live ==> !(a <= x < a + HDR)
    ensures Rep(m[x := v], h)
  {
    LinkedKept(m, h.free, x, v);
    HeadersKept(m, h.free, x, v);
    forall a | a in h.live ensures Rd(m[x := v], a) == h.live[a] && Rd(m[x := v], a + 16) == TAG_LIVE {
      assert Rd(m, a) == h.live[a] && Rd(m, a + 16) == TAG_LIVE;
    }
  }

  /** A caller may store anything in a live payload. */
  lemma PayloadWriteKeepsRep(m: Memory, h: Heap, a: int, x: int, v: int)
    requires Shape(h) && Rep(m, h) && a in h.live && a + HDR <= x < LiveBlock(h.live, a).End()
    ensures Rep(m[x := v], h)
  {
    assert Placed(LiveBlock(h.live, a)) && ApartFromFree(h.free, LiveBlock(h.live, a));
    assert !InFree(h.free, x);
    forall b | b in h.live ensures !(b <= x < b + HDR) {
      assert Placed(LiveBlock(h.live, b));
      assert b != a ==> Apart(LiveBlock(h.live, a), LiveBlock(h.live, b));
    }
    RepKept(m, h, x, v);
  }

  /** The writes of malloc that take free block i off the list. */
  function Taking(m: Memory, l: seq<Block>, i: nat): (r: Memory)
    requires i < |l|
  {
    m[SlotOf(l, i) := AddrAt(l, i + 1)][l[i].addr + 8 := 0][l[i].addr + 16 := TAG_LIVE]
  }

  /** The writes of malloc when it takes the block at cur, whose address is stored in slot. */
  function TakingCode(m: Memory, slot: int, cur: int): (r: Memory) {
    var m1 := m[slot := NextAt(m, cur)];
    var m2 := m1[cur + 8 := 0];
    m2[cur + 16 := Tag(MagicAt(m2, cur), 0)]
  }

  lemma TakingWrites(m: Memory, slot: int, cur: int)
    requires slot != cur + 16 && Rd(m, cur + 16) == TAG_FREE
    ensures TakingCode(m, slot, cur) == m[slot := NextAt(m, cur)][cur + 8 := 0][cur + 16 := TAG_LIVE]
  {
    assert TAG_FREE % HALF == MAGIC;
  }

  lemma TakingList(m: Memory, l: seq<Block>, i: nat)
    requires Ordered(l) && Linked(m, l) && FreeHeaders(m, l) && i < |l|
    ensures Linked(Taking(m, l, i), RemoveAt(l, i)) && FreeHeaders(Taking(m, l, i), RemoveAt(l, i))
  {
    UnlinkingLinks(m, l, i);
    UnlinkingHeaders(m, l, i);
    RemoveKeepsOrder(l, i);
    ClaimedRep(m[SlotOf(l, i) := AddrAt(l, i + 1)], RemoveAt(l, i), l[i], TAG_LIVE, Taking(m, l, i));
  }

  lemma TakingHeader(m: Memory, l: seq<Block>, i: nat)
    requires Ordered(l) && FreeHeaders(m, l) && i < |l|
    ensures Rd(Taking(m, l, i), l[i].addr) == l[i].size && Rd(Taking(m, l, i), l[i].addr + 16) == TAG_LIVE
  {
    if i > 0 { assert Placed(l[i - 1]) && l[i - 1].End() <= l[i].addr; } else { assert Placed(l[i]); }
  }

  lemma TakingFrame(m: Memory, l: seq<Block>, i: nat)
    requires Ordered(l) && i < |l|
    ensures OnlyFreeChanged(m, Taking(m, l, i), l)
  {
    assert Placed(l[i]) && l[i].Contains(l[i].addr + 8) && l[i].Contains(l[i].addr + 16);
    if i > 0 { assert Placed(l[i - 1]) && l[i - 1].Contains(SlotOf(l, i)); }
  }

  lemma LiveHeadersAdd(m: Memory, live: map<int, int>, a: int, s: int)
    requires LiveHeaders(m, live) && Rd(m, a) == s && Rd(m, a + 16) == TAG_LIVE
    ensures LiveHeaders(m, live[a := s])
  {}

  lemma TakingRep(m: Memory, h: Heap, i: nat)
    requires Inv(h) && Rep(m, h) && i < |h.free|
    ensures Rep(Taking(m, h.free, i), Take(h, i))
  {
    TakingList(m, h.free, i);
    TakingLive(m, h, i);
  }

  lemma TakingLive(m: Memory, h: Heap, i: nat)
    requires Shape(h) && Rep(m, h) && i < |h.free|
    ensures LiveHeaders(Taking(m, h.free, i), Take(h, i).live)
  {
    TakingHeader(m, h.free, i);
    TakingFrame(m, h.free, i);
    var m' := Taking(m, h.free, i);
    LiveHeadersKept(m, m', h);
    LiveHeadersAdd(m', h.live, h.free[i].addr, h.free[i].size);
  }

  /** Clearing the next pointer of a block that is off the list, and replacing its tag. */
  lemma ClaimedRep(m: Memory, l: seq<Block>, b: Block, tag: int, m': Memory)
    requires Ordered(l) && Placed(b) && ApartFromFree(l, b) && Linked(m, l) && FreeHeaders(m, l)
    requires m' == m[b.addr + 8 := 0][b.addr + 16 := tag]
    ensures Linked(m', l) && FreeHeaders(m', l)
  {
    forall x | b.Contains(x) ensures !InFree(l, x) {}
    assert b.Contains(b.addr + 8) && b.Contains(b.addr + 16);
    LinkedKept(m, l, b.addr + 8, 0);
    HeadersKept(m, l, b.addr + 8, 0);
    LinkedKept(m[b.addr + 8 := 0], l, b.addr + 16, tag);
    HeadersKept(m[b.addr + 8 := 0], l, b.addr + 16, tag);
  }

  /** The header writes of uheap_split_if_needed, before the rest is inserted. */
  function Splitting(m: Memory, r: Block, a: int, need: int): (res: Memory) {
    WriteHeader(m, r.addr, r.size, 0, TAG_FREE)[a := need]
  }

  function Shrunk(h: Heap, a: int, need: int): (r: Heap) {
    Heap(h.free, h.live[a := need], h.regions)
  }

  /** Three words may be written anywhere inside a live payload. */
  lemma HeaderInPayload(m: Memory, h: Heap, a: int, x: int, u: int, v: int, w: int)
    requires Shape(h) && Rep(m, h) && a in h.live && a + HDR <= x && x + HDR <= LiveBlock(h.live, a).End()
    ensures Rep(WriteHeader(m, x, u, v, w), h)
  {
    PayloadWriteKeepsRep(m, h, a, x, u);
    PayloadWriteKeepsRep(m[x := u], h, a, x + 8, v);
    PayloadWriteKeepsRep(m[x := u][x + 8 := v], h, a, x + 16, w);
  }

  lemma SplittingRep(m: Memory, h: Heap, a: int, need: int)
    requires Inv(h) && Rep(m, h) && a in h.live && 0 <= need && h.live[a] - need >= MIN_SPLIT
    ensures Rep(Splitting(m, Rest(h, a, need), a, need), Shrunk(h, a, need))
  {
    var r := Rest(h, a, need);
    HeaderInPayload(m, h, a, r.addr, r.size, 0, TAG_FREE);
    SizeWriteRep(WriteHeader(m, r.addr, r.size, 0, TAG_FREE), h, a, need);
  }

  lemma ShrunkShape(h: Heap, a: int, need: int)
    requires Inv(h) && a in h.live && 0 <= need && need % 16 == 0 && h.live[a] - need >= MIN_SPLIT
    ensures Shape(Shrunk(h, a, need)) && Placed(Rest(h, a, need)) && ApartFromFree(h.free, Rest(h, a, need))
    ensures forall b :: b in Shrunk(h, a, need).live ==> Apart(Rest(h, a, need), LiveBlock(Shrunk(h, a, need).live, b))
  {
    var g, r := Shrunk(h, a, need), Rest(h, a, need);
    SplitParts(h, a, need);
    forall b | b in h.live && b != a
      ensures LiveBlock(g.live, b) == LiveBlock(h.live, b) && Apart(Block(a, need), LiveBlock(h.live, b)) && Apart(r, LiveBlock(h.live, b))
    {
      assert Apart(LiveBlock(h.live, a), LiveBlock(h.live, b)) && Placed(LiveBlock(h.live, b));
    }
    assert LiveBlock(g.live, a) == Block(a, need);
  }

  lemma SplitCanInsert(m: Memory, h: Heap, a: int, need: int)
    requires Inv(h) && Rep(m, h) && a in h.live && 0 <= need && need % 16 == 0 && h.live[a] - need >= MIN_SPLIT
    ensures CanInsert(Splitting(m, Rest(h, a, need), a, need), Shrunk(h, a, need), Rest(h, a, need))
  {
    var r := Rest(h, a, need);
    SplittingRep(m, h, a, need);
    ShrunkShape(h, a, need);
    assert Placed(LiveBlock(h.live, a));
    var m' := Splitting(m, r, a, need);
    assert Rd(m', r.addr) == r.size && Rd(m', r.addr + 16) == TAG_FREE;
  }

  /** Overwriting the size field of a live block. */
  lemma SizeWriteRep(m: Memory, h: Heap, a: int, s: int)
    requires Shape(h) && Rep(m, h) && a in h.live
    ensures Rep(m[a := s], Heap(h.free, h.live[a := s], h.regions))
  {
    assert ApartFromFree(h.free, LiveBlock(h.live, a)) && Placed(LiveBlock(h.live, a));
    assert LiveBlock(h.live, a).Contains(a);
    assert !InFree(h.free, a);
    LinkedKept(m, h.free, a, s);
    HeadersKept(m, h.free, a, s);
    var m', live := m[a := s], h.live[a := s];
    forall b | b in live ensures Rd(m', b) == live[b] && Rd(m', b + 16) == TAG_LIVE {
      assert b in h.live && Rd(m, b) == h.live[b] && Rd(m, b + 16) == TAG_LIVE;
      assert b != a ==> Apart(LiveBlock(h.live, a), LiveBlock(h.live, b)) && Placed(LiveBlock(h.live, b));
    }
  }

  /** The header uheap_request_from_kernel writes in front of fresh memory. */
  function Growing(m: Memory, base: int, total: int): (r: Memory) {
    WriteHeader(m, base, total - HDR, 0, TAG_LIVE)
  }

  lemma GrowingRep(m: Memory, h: Heap, base: int, total: int)
    requires Inv(h) && Rep(m, h) && SbrkAnswer(h, total, base) && base > 0 && HDR <= total && total % 8 == 0
    ensures Rep(Growing(m, base, total), Grow(h, base, total))
  {
    var m1 := m[base := total - HDR];
    var m2 := m1[base + 8 := 0];
    FreshWord(h, base, total, base);
    RepKept(m, h, base, total - HDR);
    FreshWord(h, base, total, base + 8);
    RepKept(m1, h, base + 8, 0);
    FreshWord(h, base, total, base + 16);
    RepKept(m2, h, base + 16, TAG_LIVE);
    LiveHeadersAdd(m2[base + 16 := TAG_LIVE], h.live, base, total - HDR);
  }

  /** A word of memory the kernel has just handed out lies in no block. */
  lemma FreshWord(h: Heap, base: int, total: int, x: int)
    requires Inv(h) && SbrkAnswer(h, total, base) && base > 0 && base <= x < base + total
    ensures !InFree(h.free, x) && !InLive(h.live, x) && x != LIST_SLOT
    ensures forall a :: a in h.live ==> !(a <= x < a + HDR)
  {
    assert !InRegions(h.regions, x);
    assert forall a :: a in h.live ==> Placed(LiveBlock(h.live, a)) && !LiveBlock(h.live, a).Contains(x);
  }

  /** Block b has a header and lies apart from every block, so it can go on the free list. */
  ghost predicate CanInsert(m: Memory, h: Heap, b: Block) {
    && Shape(h) && Rep(m, h)
    && Placed(b) && ApartFromFree(h.free, b)
    && (forall a :: a in h.live ==> Apart(b, LiveBlock(h.live, a)))
    && SizeAt(m, b.addr) == b.size && MagicAt(m, b.addr) == MAGIC
  }

  function Inserted(h: Heap, b: Block): (r: Heap) { Heap(Insert(h.free, b), h.live, h.regions) }

  /** The writes of uheap_insert_free, once the place is found, insert the block. */
  lemma InsertingRep(m: Memory, h: Heap, b: Block, m': Memory, g: Heap)
    requires CanInsert(m, h, b) && g == Inserted(h, b)
    requires m' == Linking(m, h.free, Position(h.free, b.addr), b)
    ensures Shape(g) && Rep(m', g) && OnlyFreeChanged(m, m', g.free) && HeadersOnly(m, m', Starts(g.free))
  {
    var l, k := h.free, Position(h.free, b.addr);
    PositionSplits(l, b);
    LinkingLinks(m, l, k, b);
    LinkingHeaders(m, l, k, b);
    LinkingFrame(m, l, k, b);
    LinkingWritesHeaders(m, l, k, b);
    InsertKeepsOrder(l, b);
    forall a | a in h.live ensures ApartFromFree(g.free, LiveBlock(h.live, a)) { InsertApart(l, b, LiveBlock(h.live, a)); }
    LiveHeadersKept(m, m', g);
  }

  function Released(h: Heap, a: int): (r: Heap) {
    Heap(h.free, h.live - {a}, h.regions)
  }

  lemma ReleasedCanInsert(m: Memory, h: Heap, a: int)
    requires Inv(h) && Rep(m, h) && a in h.live
    ensures CanInsert(m, Released(h, a), LiveBlock(h.live, a))
  {
    ReleaseKeepsShape(h, a);
    LiveIsNotStale(m, h, a);
    var g := Released(h, a);
    forall b | b in g.live ensures Rd(m, b) == g.live[b] && Rd(m, b + 16) == TAG_LIVE && LiveBlock(g.live, b) == LiveBlock(h.live, b) {
      assert b in h.live;
    }
  }

  // ---------------------------------------------------------------- what callers see

  /** Every word of every one of these live payloads is the same. */
  ghost predicate PayloadsKept(m: Memory, m': Memory, live: map<int, int>) {
    forall a :: a in live ==> SamePayload(m, m', LiveBlock(live, a))
  }

  /** Nothing but the list head and memory obtained from the kernel has changed. */
  ghost predicate HeapOnly(m: Memory, m': Memory, h: Heap) {
    forall x :: Rd(m', x) == Rd(m, x) || x == LIST_SLOT || InRegions(h.regions, x)
  }

  lemma FreeChangedIsHeapOnly(m: Memory, m': Memory, h: Heap, g: Heap)
    requires Inv(g) && h.free == g.free && OnlyFreeChanged(m, m', h.free)
    ensures HeapOnly(m, m', g)
  {
    forall x | InFree(g.free, x) ensures InRegions(g.regions, x) {}
  }

  /** The header of a live block says so; no block starts at NULL. */
  lemma LiveIsNotStale(m: Memory, h: Heap, a: int)
    requires Inv(h) && Rep(m, h)
    ensures a in h.live ==> MagicAt(m, a) == MAGIC && FreeAt(m, a) == 0 && SizeAt(m, a) == h.live[a]
    ensures -HDR !in h.live
  {
    assert forall b :: b in h.live ==> Placed(LiveBlock(h.live, b));
    if a in h.live { assert Rd(m, a + 16) == TAG_LIVE && TAG_LIVE / HALF == 0; }
  }

  lemma FreedFrame(h: Heap, p: int, m0: Memory, m1: Memory, m2: Memory)
    requires Inv(h) && p - HDR in h.live
    requires OnlyFreeChanged(m0, m1, Insert(h.free, LiveBlock(h.live, p - HDR)))
    requires OnlyFreeChanged(m1, m2, Free(h, p).free)
    requires Retired(m2, Starts(Insert(h.free, LiveBlock(h.live, p - HDR))))
    requires Rep(m0, h)
    ensures MagicAt(m2, p - HDR) != MAGIC || FreeAt(m2, p - HDR) != 0
    ensures PayloadsKept(m0, m2, Free(h, p).live) && HeapOnly(m0, m2, Free(h, p))
  {
    var g, b := Free(h, p), LiveBlock(h.live, p - HDR);
    var l := Insert(h.free, b);
    assert l[Position(h.free, b.addr)] == b;
    assert b.addr in Starts(l);
    FreeKeepsInv(h, p);
    ReleaseKeepsShape(h, b.addr);
    InsertCovers(h.free, b);
    assert OnlyFreeChanged(m0, m2, g.free);
    FreeChangedIsHeapOnly(m0, m2, g, g);
    LivePayloadsKept(m0, m2, g);
  }

  // ---------------------------------------------------------------- headers of freed payloads

  /** The header at a is that of block b, or lies in its payload. */
  predicate Hides(b: Block, a: int) { a == b.addr || (b.addr + HDR <= a && a + HDR <= b.End()) }

  ghost predicate HiddenIn(l: seq<Block>, a: int) {
    exists i :: 0 <= i < |l| && Hides(l[i], a)
  }

  /** The tag of the header at a is that of a free block, or of one whose magic number is gone. */
  predicate Dead(m: Memory, a: int) { Rd(m, a + 16) == TAG_FREE || Rd(m, a + 16) == TAG_WIPED }

  /** A header inside free memory that says it is not live: free will not touch it. */
  ghost predicate Buried(m: Memory, l: seq<Block>, a: int) {
    Dead(m, a) && HiddenIn(l, a)
  }

  /** A header that is hidden in the list, but is none of its own, is not written to. */
  lemma HiddenIsKept(m: Memory, m': Memory, l: seq<Block>, i: nat, a: int)
    requires Ordered(l) && i < |l| && Hides(l[i], a) && a !in Starts(l) && HeadersOnly(m, m', Starts(l))
    ensures Rd(m', a + 16) == Rd(m, a + 16)
  {
    assert Placed(l[i]) && l[i].addr in Starts(l);
    forall c | c in Starts(l) ensures !(c <= a + 16 < c + HDR) {
      var j :| 0 <= j < |l| && l[j].addr == c;
      assert Placed(l[j]);
      assert j < i ==> l[j].End() <= l[i].addr;
      assert i < j ==> l[i].End() <= l[j].addr;
    }
  }

  lemma HiddenByInsert(l: seq<Block>, b: Block, r: seq<Block>, a: int)
    requires r == Insert(l, b)
    ensures HiddenIn(l, a) || a == b.addr ==> HiddenIn(r, a)
  {
    InsertedAt(l, b);
    var k := Position(l, b.addr);
    if a == b.addr { assert Hides(r[k], a); }
    if HiddenIn(l, a) {
      var i :| 0 <= i < |l| && Hides(l[i], a);
      var j := if i < k then i else i + 1;
      assert Hides(r[j], a);
    }
  }

  lemma HiddenByCoalesce(l: seq<Block>, c: seq<Block>, a: int)
    requires Ordered(l) && c == Coalesce(l) && HiddenIn(l, a)
    ensures HiddenIn(c, a)
  {
    var i :| 0 <= i < |l| && Hides(l[i], a);
    var j := CoalesceContains(l, i);
    assert Placed(l[i]) && Hides(c[j], a);
  }

  /** Writing headers of the list leaves a hidden header dead, if all of the list's own are. */
  lemma DeadStaysDead(m: Memory, m': Memory, l: seq<Block>, a: int)
    requires Ordered(l) && HiddenIn(l, a) && HeadersOnly(m, m', Starts(l)) && Retired(m', Starts(l)) && (Dead(m, a) || a in Starts(l))
    ensures Dead(m', a)
  {
    if a !in Starts(l) {
      var i :| 0 <= i < |l| && Hides(l[i], a);
      HiddenIsKept(m, m', l, i, a);
    }
  }

  lemma FreeIsRetired(m: Memory, l: seq<Block>)
    requires FreeHeaders(m, l)
    ensures Retired(m, Starts(l))
  {
    forall a | a in Starts(l) ensures Rd(m, a + 16) == TAG_FREE {
      var i :| 0 <= i < |l| && l[i].addr == a;
      assert Rd(m, l[i].addr + 16) == TAG_FREE;
    }
  }

  /** Inserting a block and coalescing buries its header, and every buried header stays so. */
  lemma ListBuries(l0: seq<Block>, b: Block, l: seq<Block>, c: seq<Block>, m0: Memory, m1: Memory, m2: Memory, a: int)
    requires l == Insert(l0, b) && c == Coalesce(l) && Ordered(l) && FreeHeaders(m1, l)
    requires HeadersOnly(m0, m1, Starts(l)) && HeadersOnly(m1, m2, Starts(l)) && Retired(m2, Starts(l))
    requires Buried(m0, l0, a) || a == b.addr
    ensures Buried(m2, c, a)
  {
    HiddenByInsert(l0, b, l, a);
    HiddenByCoalesce(l, c, a);
    FreeIsRetired(m1, l);
    if a == b.addr {
      InsertedAt(l0, b);
      assert l[Position(l0, b.addr)].addr in Starts(l);
    }
    DeadStaysDead(m0, m1, l, a);
    DeadStaysDead(m1, m2, l, a);
  }

  /** free buries the header of its block, and every buried header stays so. */
  lemma FreeBuries(h: Heap, p: int, l: seq<Block>, m0: Memory, m1: Memory, m2: Memory)
    requires Inv(h) && p - HDR in h.live && l == Insert(h.free, LiveBlock(h.live, p - HDR)) && FreeHeaders(m1, l)
    requires HeadersOnly(m0, m1, Starts(l)) && HeadersOnly(m1, m2, Starts(l)) && Retired(m2, Starts(l))
    ensures Buried(m2, Free(h, p).free, p - HDR)
    ensures forall a :: Buried(m0, h.free, a) ==> Buried(m2, Free(h, p).free, a)
  {
    var b, c := LiveBlock(h.live, p - HDR), Coalesce(l);
    ReleaseKeepsShape(h, p - HDR);
    InsertKeepsOrder(h.free, b);
    ListBuries(h.free, b, l, c, m0, m1, m2, b.addr);
    forall a | Buried(m0, h.free, a) ensures Buried(m2, c, a) { ListBuries(h.free, b, l, c, m0, m1, m2, a); }
  }

  lemma BuriedIsStale(m: Memory, l: seq<Block>, a: int)
    requires Buried(m, l, a)
    ensures MagicAt(m, a) != MAGIC || FreeAt(m, a) != 0
  {}

  lemma LivePayloadsKept(m: Memory, m': Memory, h: Heap)
    requires Shape(h) && OnlyFreeChanged(m, m', h.free)
    ensures PayloadsKept(m, m', h.live)
  {
    forall a, x | a in h.live && a + HDR <= x < LiveBlock(h.live, a).End() ensures Rd(m', x) == Rd(m, x) {
      assert ApartFromFree(h.free, LiveBlock(h.live, a)) && Placed(LiveBlock(h.live, a));
      assert !InFree(h.free, x);
    }
  }

  /** What uheap_split_if_needed changes: the list head, free blocks, and the size field of the block. */
  ghost predicate SplitChanged(m: Memory, m': Memory, l: seq<Block>, a: int) {
    forall x :: Rd(m', x) == Rd(m, x) || x == LIST_SLOT || InFree(l, x) || x == a
  }

  lemma SplitFrame(m0: Memory, h: Heap, a: int, need: int, m2: Memory)
    requires Inv(h) && a in h.live && 0 <= need && need % 16 == 0 && h.live[a] - need >= MIN_SPLIT
    requires OnlyFreeChanged(Splitting(m0, Rest(h, a, need), a, need), m2, Insert(h.free, Rest(h, a, need)))
    ensures SplitChanged(m0, m2, Split(h, a, need).free, a)
  {
    var r := Rest(h, a, need);
    SplitParts(h, a, need);
    InsertCovers(h.free, r);
    assert r.Contains(r.addr) && r.Contains(r.addr + 8) && r.Contains(r.addr + 16);
  }

  /** A payload that stays live is not touched by a split, nor by writes to what was free before. */
  lemma SplitKeepsPayloads(m: Memory, m': Memory, h: Heap, a: int)
    requires Inv(h) && a in h.live && SplitChanged(m, m', h.free, a)
    ensures PayloadsKept(m, m', h.live) && HeapOnly(m, m', h)
  {
    forall b, x | b in h.live && b + HDR <= x < LiveBlock(h.live, b).End() ensures Rd(m', x) == Rd(m, x) {
      PayloadIsPrivate(h, b, x);
      assert Placed(LiveBlock(h.live, a)) && LiveBlock(h.live, a).Contains(a);
    }
    assert InLive(h.live, a) by { assert Placed(LiveBlock(h.live, a)) && LiveBlock(h.live, a).Contains(a); }
  }

  lemma TakeAndSplitFrame(m0: Memory, m1: Memory, m2: Memory, h: Heap, i: nat, need: int)
    requires Inv(h) && i < |h.free| && 0 <= need && need % 16 == 0
    requires OnlyFreeChanged(m0, m1, h.free)
    requires SplitChanged(m1, m2, Split(Take(h, i), h.free[i].addr, need).free, h.free[i].addr)
    ensures PayloadsKept(m0, m2, h.live) && HeapOnly(m0, m2, Split(Take(h, i), h.free[i].addr, need))
  {
    var g := Split(Take(h, i), h.free[i].addr, need);
    TakeKeepsInv(h, i);
    SplitKeepsInv(Take(h, i), h.free[i].addr, need);
    SplitKeepsPayloads(m1, m2, g, h.free[i].addr);
    LivePayloadsKept(m0, m1, h);
    forall x | InFree(h.free, x) ensures InRegions(h.regions, x) {}
    assert HeapOnly(m0, m1, g);
    forall a, x | a in h.live && a + HDR <= x < LiveBlock(h.live, a).End() ensures Rd(m2, x) == Rd(m0, x) {
      assert a in g.live && LiveBlock(g.live, a) == LiveBlock(h.live, a);
      assert SamePayload(m1, m2, LiveBlock(g.live, a)) && SamePayload(m0, m1, LiveBlock(h.live, a));
    }
  }

  /** What malloc and realloc read in the header of a block on the list. */
  lemma FreeHeaderReads(m: Memory, l: seq<Block>, i: int)
    requires Linked(m, l) && FreeHeaders(m, l) && 0 <= i < |l|
    ensures MagicAt(m, l[i].addr) == MAGIC && FreeAt(m, l[i].addr) == 1
    ensures SizeAt(m, l[i].addr) == l[i].size && NextAt(m, l[i].addr) == AddrAt(l, i + 1)
  {
    assert Rd(m, l[i].addr + 16) == TAG_FREE && TAG_FREE / HALF == 1 && TAG_FREE % HALF == MAGIC;
    assert SlotOf(l, i + 1) == l[i].addr + 8;
  }

  /** No block of the list starts at NULL. */
  lemma ListAddresses(l: seq<Block>)
    requires Ordered(l)
    ensures forall i :: 0 <= i < |l| ==> l[i].addr != 0
  {
    forall i | 0 <= i < |l| ensures l[i].addr != 0 { assert Placed(l[i]); }
  }

  /** The search of malloc: the first i blocks are too small, cur is block i and prev the one before. */
  ghost predicate Searching(l: seq<Block>, need: int, i: int, prev: int, cur: int) {
    && 0 <= i <= |l| && cur == AddrAt(l, i) && prev == (if i == 0 then 0 else l[i - 1].addr)
    && forall j :: 0 <= j < i ==> l[j].size < need
  }

  lemma SearchTurns(m: Memory, l: seq<Block>, need: int, i: int, prev: int, cur: int)
    requires Ordered(l) && Linked(m, l) && FreeHeaders(m, l) && Searching(l, need, i, prev, cur) && cur != 0
    ensures i < |l| && cur == l[i].addr && SlotOf(l, i) == (if prev != 0 then prev + 8 else LIST_SLOT)
    ensures MagicAt(m, cur) == MAGIC && FreeAt(m, cur) == 1
    ensures SizeAt(m, cur) == l[i].size && NextAt(m, cur) == AddrAt(l, i + 1)
    ensures if l[i].size >= need then FirstFit(l, need) == i else Searching(l, need, i + 1, cur, NextAt(m, cur))
  {
    FreeHeaderReads(m, l, i);
    if i > 0 { assert Placed(l[i - 1]); }
  }

  lemma SearchFails(l: seq<Block>, need: int, i: int, prev: int)
    requires Ordered(l) && Searching(l, need, i, prev, 0)
    ensures FirstFit(l, need) == |l|
  {
    assert i < |l| ==> Placed(l[i]);
  }

  /** The new region is written in no live payload. */
  lemma GrowingFrame(m: Memory, h: Heap, base: int, total: int)
    requires Inv(h) && SbrkAnswer(h, total, base) && base > 0 && HDR <= total && total % 8 == 0
    ensures PayloadsKept(m, Growing(m, base, total), h.live) && HeapOnly(m, Growing(m, base, total), Grow(h, base, total))
  {
    var g, m' := Grow(h, base, total), Growing(m, base, total);
    forall x | Rd(m', x) != Rd(m, x) ensures InRegions(g.regions, x) && !InLive(h.live, x) {
      FreshWord(h, base, total, x);
      assert g.regions[|h.regions|].Contains(x);
    }
    forall a, x | a in h.live && a + HDR <= x < LiveBlock(h.live, a).End() ensures Rd(m', x) == Rd(m, x) {
      assert LiveBlock(h.live, a).Contains(x) && InLive(h.live, x);
    }
  }

  lemma GrowFrame(m0: Memory, m2: Memory, h: Heap, base: int, need: int, total: int)
    requires Inv(h) && SbrkAnswer(h, total, base) && base > 0 && 0 <= need && total == need + HDR + 8 && total % 16 == 0
    requires SplitChanged(Growing(m0, base, total), m2, h.free, base)
    ensures PayloadsKept(m0, m2, h.live) && HeapOnly(m0, m2, Grow(h, base, total))
  {
    var g, m1 := Grow(h, base, total), Growing(m0, base, total);
    GrowKeepsInv(h, base, total);
    GrowingFrame(m0, h, base, total);
    SplitKeepsPayloads(m1, m2, g, base);
    forall a | a in h.live ensures SamePayload(m1, m2, LiveBlock(h.live, a)) {
      assert a in g.live && LiveBlock(g.live, a) == LiveBlock(h.live, a);
    }
    PayloadsChain(m0, m1, m2, h.live);
  }

  lemma TakingIsCode(m: Memory, l: seq<Block>, i: int)
    requires Ordered(l) && Linked(m, l) && FreeHeaders(m, l) && 0 <= i < |l|
    ensures TakingCode(m, SlotOf(l, i), l[i].addr) == Taking(m, l, i)
  {
    SlotBefore(l, i);
    FreeHeaderReads(m, l, i);
    TakingWrites(m, SlotOf(l, i), l[i].addr);
  }

  lemma TakingKeepsValid(m: Memory, h: Heap, i: int)
    requires Inv(h) && Rep(m, h) && 0 <= i < |h.free|
    ensures var m' := TakingCode(m, SlotOf(h.free, i), h.free[i].addr);
            Inv(Take(h, i)) && Rep(m', Take(h, i)) && OnlyFreeChanged(m, m', h.free)
  {
    TakingIsCode(m, h.free, i);
    TakeKeepsInv(h, i);
    TakingRep(m, h, i);
    TakingFrame(m, h.free, i);
  }

  lemma SlotBefore(l: seq<Block>, i: int)
    requires Ordered(l) && 0 <= i < |l|
    ensures SlotOf(l, i) < l[i].addr
  {
    assert Placed(l[i]);
    if i > 0 { assert Placed(l[i - 1]) && l[i - 1].End() <= l[i].addr; }
  }

  // ---------------------------------------------------------------- realloc

  /** Taking block k off the list, clearing its next pointer and wiping its magic number. */
  function Wiping(m: Memory, l: seq<Block>, k: nat): (r: Memory)
    requires k < |l|
  {
    m[SlotOf(l, k) := AddrAt(l, k + 1)][l[k].addr + 8 := 0][l[k].addr + 16 := TAG_WIPED]
  }

  lemma WipingList(m: Memory, l: seq<Block>, k: nat)
    requires Ordered(l) && Linked(m, l) && FreeHeaders(m, l) && k < |l|
    ensures Linked(Wiping(m, l, k), RemoveAt(l, k)) && FreeHeaders(Wiping(m, l, k), RemoveAt(l, k))
  {
    UnlinkingLinks(m, l, k);
    UnlinkingHeaders(m, l, k);
    RemoveKeepsOrder(l, k);
    ClaimedRep(m[SlotOf(l, k) := AddrAt(l, k + 1)], RemoveAt(l, k), l[k], TAG_WIPED, Wiping(m, l, k));
  }

  lemma WipingFrame(m: Memory, l: seq<Block>, k: nat)
    requires Ordered(l) && k < |l|
    ensures OnlyFreeChanged(m, Wiping(m, l, k), l)
  {
    assert Placed(l[k]) && l[k].Contains(l[k].addr + 8) && l[k].Contains(l[k].addr + 16);
    if k > 0 { assert Placed(l[k - 1]) && l[k - 1].Contains(SlotOf(l, k)); }
  }

  lemma AbsorbingRep(m: Memory, h: Heap, a: int, k: nat)
    requires Inv(h) && Rep(m, h) && a in h.live && k < |h.free|
    ensures Rep(Wiping(m, h.free, k)[a := Join(LiveBlock(h.live, a), h.free[k]).size], Absorb(h, a, k))
  {
    var m1 := Wiping(m, h.free, k);
    WipingList(m, h.free, k);
    WipingFrame(m, h.free, k);
    LiveHeadersKept(m, m1, h);
    RemovedShape(h, k);
    SizeWriteRep(m1, Heap(RemoveAt(h.free, k), h.live, h.regions), a, Join(LiveBlock(h.live, a), h.free[k]).size);
  }

  lemma RemovedShape(h: Heap, k: nat)
    requires Shape(h) && k < |h.free|
    ensures Shape(Heap(RemoveAt(h.free, k), h.live, h.regions))
  {
    var r := RemoveAt(h.free, k);
    RemoveKeepsOrder(h.free, k);
    forall a | a in h.live ensures ApartFromFree(r, LiveBlock(h.live, a)) {
      assert ApartFromFree(h.free, LiveBlock(h.live, a));
      assert forall i :: 0 <= i < |r| ==> r[i] == if i < k then h.free[i] else h.free[i + 1];
    }
  }

  /** Absorbing changes free bytes and one size field only. */
  lemma AbsorbingFrame(m: Memory, h: Heap, a: int, k: nat, s: int)
    requires Inv(h) && a in h.live && k < |h.free|
    ensures PayloadsKept(m, Wiping(m, h.free, k)[a := s], h.live) && HeapOnly(m, Wiping(m, h.free, k)[a := s], h)
  {
    WipingFrame(m, h.free, k);
    var m1 := Wiping(m, h.free, k);
    assert Placed(LiveBlock(h.live, a)) && LiveBlock(h.live, a).Contains(a) && InLive(h.live, a);
    assert SplitChanged(m, m1[a := s], h.free, a);
    SplitKeepsPayloads(m, m1[a := s], h, a);
  }

  /** Word i of the payload at p. */
  function Word(m: Memory, p: int, i: int): (r: int) { Rd(m, p + 8 * i) }

  /** The payload at q in m' starts with the words of the payload at p in m. */
  ghost predicate SameWords(m: Memory, p: int, m': Memory, q: int, size: int) {
    forall i :: 0 <= i && 8 * i < size ==> Word(m', q, i) == Word(m, p, i)
  }

  lemma SamePayloadIsSameWords(m: Memory, m': Memory, b: Block, size: int)
    requires SamePayload(m, m', b) && size <= b.size
    ensures SameWords(m, b.addr + HDR, m', b.addr + HDR, size)
  {
    forall i | 0 <= i && 8 * i < size ensures Word(m', b.addr + HDR, i) == Word(m, b.addr + HDR, i) {}
  }

  /** Only words of the payload at q may differ. */
  ghost predicate CopyChanged(m: Memory, m': Memory, q: int, size: int) {
    forall x :: Rd(m', x) == Rd(m, x) || q <= x < q + size
  }

  /** A copy into one live payload leaves every other live payload and the heap's structure alone. */
  lemma CopyIsPrivate(m: Memory, m': Memory, h: Heap, q: int, size: int)
    requires Inv(h) && q - HDR in h.live && size <= h.live[q - HDR] && CopyChanged(m, m', q, size)
    ensures PayloadsKept(m, m', h.live - {q - HDR}) && HeapOnly(m, m', h)
  {
    forall x | q <= x < q + size ensures InRegions(h.regions, x) { PayloadIsPrivate(h, q - HDR, x); }
    forall b, x | b in h.live - {q - HDR} && b + HDR <= x < LiveBlock(h.live, b).End() ensures Rd(m', x) == Rd(m, x) {
      PayloadIsPrivate(h, b, x);
      assert Placed(LiveBlock(h.live, b)) && !LiveBlock(h.live, q - HDR).Contains(x);
    }
  }

  /** The writes of uheap_remove_free when it finds the block at b, whose address is in slot. */
  function RemoveCode(m: Memory, slot: int, b: int): (r: Memory) {
    m[slot := NextAt(m, b)][b + 8 := 0]
  }

  /** The writes of realloc that follow: wipe the magic number at next, and enlarge the block at a. */
  function WipeCode(m: Memory, a: int, next: int, combined: int): (r: Memory) {
    m[next + 16 := Tag(0, FreeAt(m, next))][a := combined]
  }

  function AbsorbCode(m: Memory, slot: int, a: int, next: int, combined: int): (r: Memory) {
    WipeCode(RemoveCode(m, slot, next), a, next, combined)
  }

  lemma AbsorbWrites(m: Memory, slot: int, a: int, next: int, combined: int)
    requires slot != next + 16 && Rd(m, next + 16) == TAG_FREE
    ensures AbsorbCode(m, slot, a, next, combined)
            == m[slot := NextAt(m, next)][next + 8 := 0][next + 16 := TAG_WIPED][a := combined]
  {
    assert TAG_FREE / HALF == 1;
  }

  lemma AbsorbIsWiping(m: Memory, l: seq<Block>, a: int, k: int, combined: int)
    requires Ordered(l) && Linked(m, l) && FreeHeaders(m, l) && 0 <= k < |l|
    ensures AbsorbCode(m, SlotOf(l, k), a, l[k].addr, combined) == Wiping(m, l, k)[a := combined]
  {
    SlotBefore(l, k);
    FreeHeaderReads(m, l, k);
    AbsorbWrites(m, SlotOf(l, k), a, l[k].addr, combined);
  }

  lemma AbsorbKeepsValid(m: Memory, h: Heap, a: int, k: int)
    requires Inv(h) && Rep(m, h) && a in h.live && 0 <= k < |h.free| && h.free[k].addr == LiveBlock(h.live, a).End()
    ensures var m' := AbsorbCode(m, SlotOf(h.free, k), a, h.free[k].addr, Join(LiveBlock(h.live, a), h.free[k]).size);
            Inv(Absorb(h, a, k)) && Rep(m', Absorb(h, a, k)) && PayloadsKept(m, m', h.live) && HeapOnly(m, m', h)
  {
    var s := Join(LiveBlock(h.live, a), h.free[k]).size;
    AbsorbIsWiping(m, h.free, a, k, s);
    AbsorbKeepsInv(h, a, k);
    AbsorbingRep(m, h, a, k);
    AbsorbingFrame(m, h, a, k, s);
  }

  /** What realloc reads in the header behind the block: if that block is on the list, the
      header is in order and no size overflows. */
  lemma NextHeader(m: Memory, h: Heap, a: int)
    requires Inv(h) && Rep(m, h) && a in h.live
    ensures var e := LiveBlock(h.live, a).End(); var k := IndexOf(h.free, e);
            k < |h.free| ==>
              MagicAt(m, e) == MAGIC && FreeAt(m, e) == 1 && SizeAt(m, e) == h.free[k].size
              && SizeAt(m, e) <= SIZE_LIMIT - 1 - h.live[a] - HDR
  {
    var k := IndexOf(h.free, LiveBlock(h.live, a).End());
    if k < |h.free| {
      FreeHeaderReads(m, h.free, k);
      assert Placed(h.free[k]);
    }
  }

  /** The client's view of realloc: the old words are in the new block, and every other payload is as it was. */
  ghost predicate Moved(m: Memory, h: Heap, p: int, m': Memory, g: Heap, q: int) {
    && p - HDR in h.live && q - HDR in g.live
    && SameWords(m, p, m', q, if h.live[p - HDR] < g.live[q - HDR] then h.live[p - HDR] else g.live[q - HDR])
    && PayloadsKept(m, m', h.live - {p - HDR})
  }

  lemma ShrinkMoves(m: Memory, m': Memory, h: Heap, p: int, need: int)
    requires Inv(h) && p - HDR in h.live && 0 <= need && need % 16 == 0
    requires SplitChanged(m, m', Split(h, p - HDR, need).free, p - HDR)
    ensures Moved(m, h, p, m', Split(h, p - HDR, need), p) && HeapOnly(m, m', h)
  {
    var a, g := p - HDR, Split(h, p - HDR, need);
    SplitKeepsInv(h, a, need);
    SplitKeepsPayloads(m, m', g, a);
    SamePayloadIsSameWords(m, m', LiveBlock(g.live, a), g.live[a]);
    PayloadsKeptWithout(m, m', g.live, a);
    assert g.live - {a} == h.live - {a};
  }

  lemma PayloadsKeptWithout(m: Memory, m': Memory, live: map<int, int>, a: int)
    requires PayloadsKept(m, m', live)
    ensures PayloadsKept(m, m', live - {a})
  {
    forall b | b in live - {a} ensures SamePayload(m, m', LiveBlock(live - {a}, b)) {
      assert SamePayload(m, m', LiveBlock(live, b));
    }
  }

  lemma AbsorbMoves(m: Memory, m1: Memory, m2: Memory, h: Heap, p: int, need: int, k: nat)
    requires Inv(h) && p - HDR in h.live && 0 <= need && need % 16 == 0
    requires k < |h.free| && h.free[k].addr == LiveBlock(h.live, p - HDR).End()
    requires PayloadsKept(m, m1, h.live) && HeapOnly(m, m1, h)
    requires SplitChanged(m1, m2, Split(Absorb(h, p - HDR, k), p - HDR, need).free, p - HDR)
    ensures Moved(m, h, p, m2, Split(Absorb(h, p - HDR, k), p - HDR, need), p)
    ensures HeapOnly(m, m2, Split(Absorb(h, p - HDR, k), p - HDR, need))
  {
    var a, g := p - HDR, Absorb(h, p - HDR, k);
    AbsorbKeepsInv(h, a, k);
    ShrinkMoves(m1, m2, g, p, need);
    PayloadsKeptWithout(m, m1, h.live, a);
    assert g.live - {a} == h.live - {a};
    SamePayloadIsSameWords(m, m1, LiveBlock(h.live, a), h.live[a]);
    PayloadsChain(m, m1, m2, h.live - {a});
    var g2 := Split(g, a, need);
    forall i | 0 <= i && 8 * i < h.live[a] && 8 * i < g2.live[a] ensures Word(m2, p, i) == Word(m, p, i) {
      assert Word(m2, p, i) == Word(m1, p, i) && Word(m1, p, i) == Word(m, p, i);
    }
  }

  lemma PayloadsChain(m: Memory, m1: Memory, m2: Memory, live: map<int, int>)
    requires PayloadsKept(m, m1, live) && PayloadsKept(m1, m2, live)
    ensures PayloadsKept(m, m2, live)
  {
    forall b | b in live ensures SamePayload(m, m2, LiveBlock(live, b)) {
      assert SamePayload(m, m1, LiveBlock(live, b)) && SamePayload(m1, m2, LiveBlock(live, b));
    }
  }

  /** malloc, memcpy, free: the three steps of a realloc that moves. */
  lemma MoveMoves(m: Memory, m1: Memory, m2: Memory, m3: Memory, h: Heap, p: int, need: int, r: Result)
    requires Inv(h) && Inv(r.heap) && p - HDR in h.live && Handed(h, need, r) && h.live[p - HDR] <= need
    requires PayloadsKept(m, m1, h.live)
    requires SameWords(m1, p, m2, r.ptr, h.live[p - HDR]) && CopyChanged(m1, m2, r.ptr, h.live[p - HDR])
    requires PayloadsKept(m2, m3, Free(r.heap, p).live)
    ensures Moved(m, h, p, m3, Free(r.heap, p), r.ptr)
  {
    var a, q, g := p - HDR, r.ptr, Free(r.heap, p);
    var size := h.live[a];
    assert a in r.heap.live && a != q - HDR;
    SamePayloadIsSameWords(m, m1, LiveBlock(h.live, a), size);
    SamePayloadIsSameWords(m2, m3, LiveBlock(g.live, q - HDR), size);
    forall i | 0 <= i && 8 * i < size ensures Word(m3, q, i) == Word(m, p, i) {
      assert Word(m3, q, i) == Word(m2, q, i) && Word(m2, q, i) == Word(m1, p, i) && Word(m1, p, i) == Word(m, p, i);
    }
    CopyIsPrivate(m1, m2, r.heap, q, size);
    PayloadsKeptWithout(m, m1, h.live, a);
    PayloadsKeptWithout(m1, m2, r.heap.live - {q - HDR}, a);
    PayloadsKeptWithout(m2, m3, g.live, q - HDR);
    assert r.heap.live - {q - HDR} - {a} == h.live - {a} && g.live - {q - HDR} == h.live - {a};
    PayloadsChain(m, m1, m2, h.live - {a});
    PayloadsChain(m, m2, m3, h.live - {a});
  }
}
