/** The allocator of include/libc.h seen as a set of blocks.

    A block is a 24-byte header followed by its payload.  The abstract heap keeps the
    free blocks in list order, the live blocks by header address, and every region the
    kernel has handed out.  Each operation is a function on abstract heaps; the class
    `UHeap` runs the same operations on memory words and refines these functions. */
module HeapSpec {

  const HDR := 24                             // sizeof(uheap_hdr_t)
  const MIN_SPLIT := 56                       // sizeof(uheap_hdr_t) + 32
  const SIZE_LIMIT := 0x1_0000_0000_0000_0000 // size_t has 64 bits
  const TOP := 0x8000_0000_0000_0000          // first address that is negative as intptr_t
  const LIST_SLOT := 8                        // static address of g_uheap_free
  const FIRST_FREE_ADDRESS := 16              // sbrk never returns memory below the statics

  datatype Block = Block(addr: int, size: int) {
    function End(): (r: int) { addr + HDR + size }
    predicate Contains(x: int) { addr <= x < End() }
  }

  datatype Region = Region(base: int, len: int) {
    predicate Contains(x: int) { base <= x < base + len }
  }

  datatype Heap = Heap(free: seq<Block>, live: map<int, int>, regions: seq<Region>)

  const EmptyHeap := Heap([], map[], [])

  // ---------------------------------------------------------------- size arithmetic

  /** uheap_align: round up to 16, with the wrap-around of size_t. */
  function Align(n: int): (r: int) {
    (n + 15) % SIZE_LIMIT / 16 * 16
  }

  /** Rounding up covers the request, by less than 16 bytes, exactly when n + 15 does not wrap. */
  lemma AlignCovers(n: int)
    requires 0 <= n < SIZE_LIMIT
    ensures n <= Align(n) <==> n <= SIZE_LIMIT - 16 || n == 0
    ensures n <= SIZE_LIMIT - 16 ==> n <= Align(n) < n + 16
    ensures 0 <= Align(n) < SIZE_LIMIT && Align(n) % 16 == 0
  {
    if n + 15 < SIZE_LIMIT {
      assert (n + 15) % SIZE_LIMIT == n + 15;
    } else {
      assert (n + 15) % SIZE_LIMIT == n + 15 - SIZE_LIMIT;
    }
  }

  /** The byte count uheap_request_from_kernel passes to sbrk. */
  function RequestTotal(payload: int): (r: int) {
    Align((HDR + payload) % SIZE_LIMIT)
  }

  /** The two overflow tests of uheap_request_from_kernel. */
  predicate RequestRefused(payload: int) {
    payload > SIZE_LIMIT - 1 - HDR || RequestTotal(payload) < payload
  }

  // ---------------------------------------------------------------- invariant

  predicate Placed(b: Block) {
    && FIRST_FREE_ADDRESS <= b.addr && b.addr % 8 == 0
    && 0 <= b.size && b.size % 8 == 0
    && b.End() <= TOP
  }

  predicate Apart(b: Block, c: Block) {
    b.End() <= c.addr || c.End() <= b.addr
  }

  /** A list in strict address order whose blocks do not overlap. */
  ghost predicate Ordered(l: seq<Block>) {
    && (forall i :: 0 <= i < |l| ==> Placed(l[i]))
    && (forall i, j :: 0 <= i < j < |l| ==> l[i].End() <= l[j].addr)
  }

  function LiveBlock(live: map<int, int>, a: int): (r: Block)
    requires a in live
  {
    Block(a, live[a])
  }

  ghost predicate LiveApart(live: map<int, int>) {
    && (forall a :: a in live ==> Placed(LiveBlock(live, a)))
    && (forall a, b :: a in live && b in live && a != b ==> Apart(LiveBlock(live, a), LiveBlock(live, b)))
  }

  ghost predicate ApartFromFree(l: seq<Block>, b: Block) {
    forall i :: 0 <= i < |l| ==> Apart(l[i], b)
  }

  /** No two blocks, free or live, share a byte. */
  ghost predicate Shape(h: Heap) {
    && Ordered(h.free)
    && LiveApart(h.live)
    && (forall a :: a in h.live ==> ApartFromFree(h.free, LiveBlock(h.live, a)))
  }

  ghost predicate InFree(l: seq<Block>, x: int) {
    exists i :: 0 <= i < |l| && l[i].Contains(x)
  }

  ghost predicate InLive(live: map<int, int>, x: int) {
    exists a :: a in live && LiveBlock(live, a).Contains(x)
  }

  ghost predicate InRegions(rs: seq<Region>, x: int) {
    exists i :: 0 <= i < |rs| && rs[i].Contains(x)
  }

  /** Headers and payloads cover exactly the bytes obtained from the kernel. */
  ghost predicate Tiles(h: Heap) {
    forall x :: InFree(h.free, x) || InLive(h.live, x) <==> InRegions(h.regions, x)
  }

  ghost predicate Inv(h: Heap) {
    Shape(h) && Tiles(h)
  }

  /** No free block ends where the next one begins. */
  ghost predicate Coalesced(l: seq<Block>) {
    forall i :: 0 <= i < |l| - 1 ==> l[i].End() != l[i + 1].addr
  }

  // ---------------------------------------------------------------- list operations

  /** How many leading blocks of the list lie below address a. */
  function Position(l: seq<Block>, a: int): (k: nat)
    ensures k <= |l|
    ensures forall j :: 0 <= j < k ==> l[j].addr < a
    ensures k < |l| ==> l[k].addr >= a
  {
    if l == [] || l[0].addr >= a then 0 else 1 + Position(l[1..], a)
  }

  /** uheap_insert_free */
  function Insert(l: seq<Block>, b: Block): (r: seq<Block>) {
    var k := Position(l, b.addr);
    l[..k] + [b] + l[k..]
  }

  function RemoveAt(l: seq<Block>, i: nat): (r: seq<Block>)
    requires i < |l|
  {
    l[..i] + l[i + 1..]
  }

  /** The first block that is large enough, or |l|. */
  function FirstFit(l: seq<Block>, need: int): (k: nat)
    ensures k <= |l|
    ensures forall j :: 0 <= j < k ==> l[j].size < need
    ensures k < |l| ==> l[k].size >= need
  {
    if l == [] || l[0].size >= need then 0 else 1 + FirstFit(l[1..], need)
  }

  function Join(b: Block, c: Block): (r: Block) {
    Block(b.addr, b.size + HDR + c.size)
  }

  /** uheap_coalesce */
  function Coalesce(l: seq<Block>): (r: seq<Block>)
    decreases |l|
  {
    if |l| <= 1 then l
    else if l[0].End() == l[1].addr then Coalesce([Join(l[0], l[1])] + l[2..])
    else [l[0]] + Coalesce(l[1..])
  }

  // ---------------------------------------------------------------- heap operations

  /** The block that splitting leaves behind. */
  function Rest(h: Heap, a: int, need: int): (r: Block)
    requires a in h.live
  {
    Block(a + HDR + need, h.live[a] - need - HDR)
  }

  /** uheap_split_if_needed on the live block at a */
  function Split(h: Heap, a: int, need: int): (r: Heap)
    requires a in h.live
  {
    if h.live[a] - need < MIN_SPLIT then h
    else Heap(Insert(h.free, Rest(h, a, need)), h.live[a := need], h.regions)
  }

  /** Unlink free block i and hand it out whole. */
  function Take(h: Heap, i: nat): (r: Heap)
    requires i < |h.free|
  {
    Heap(RemoveAt(h.free, i), h.live[h.free[i].addr := h.free[i].size], h.regions)
  }

  /** A region from the kernel becomes one live block. */
  function Grow(h: Heap, base: int, total: int): (r: Heap) {
    Heap(h.free, h.live[base := total - HDR], h.regions + [Region(base, total)])
  }

  /** What sbrk may answer to a request for `total` bytes: failure, or 8-aligned memory
      that it never handed out before, below the addresses that are negative as intptr_t. */
  ghost predicate SbrkAnswer(h: Heap, total: int, m: int) {
    m <= 0 ||
    (&& FIRST_FREE_ADDRESS <= m && m % 8 == 0 && m + total <= TOP
     && forall i :: 0 <= i < |h.regions| ==>
          m + total <= h.regions[i].base || h.regions[i].base + h.regions[i].len <= m)
  }

  datatype Result = Result(heap: Heap, ptr: int)

  /** malloc; m is what the kernel answers if it is asked. */
  function Malloc(h: Heap, n: int, m: int): (r: Result) {
    if n == 0 then Result(h, 0)
    else
      var need := Align(n);
      var i := FirstFit(h.free, need);
      if i < |h.free| then
        Result(Split(Take(h, i), h.free[i].addr, need), h.free[i].addr + HDR)
      else if RequestRefused(need) || m <= 0 then Result(h, 0)
      else Result(Grow(h, m, RequestTotal(need)), m + HDR)
  }

  /** free of NULL, of a live payload, or of a payload that is no longer live. */
  function Free(h: Heap, p: int): (r: Heap) {
    if p - HDR !in h.live then h
    else Heap(Coalesce(Insert(h.free, LiveBlock(h.live, p - HDR))), h.live - {p - HDR}, h.regions)
  }

  /** The index of the free block that starts at a, or |l|. */
  function IndexOf(l: seq<Block>, a: int): (k: nat)
    ensures k <= |l|
    ensures forall j :: 0 <= j < k ==> l[j].addr != a
    ensures k < |l| ==> l[k].addr == a
  {
    if l == [] || l[0].addr == a then 0 else 1 + IndexOf(l[1..], a)
  }

  /** Absorb free block k into the live block at a. */
  function Absorb(h: Heap, a: int, k: nat): (r: Heap)
    requires a in h.live && k < |h.free|
  {
    Heap(RemoveAt(h.free, k), h.live[a := Join(LiveBlock(h.live, a), h.free[k]).size], h.regions)
  }

  /** The free block right behind the live block at a that makes it big enough, or |free|. */
  function Absorbable(h: Heap, a: int, need: int): (k: nat)
    requires a in h.live
    ensures k < |h.free| ==> h.free[k].addr == LiveBlock(h.live, a).End()
    ensures k < |h.free| ==> need <= Join(LiveBlock(h.live, a), h.free[k]).size
  {
    var k := IndexOf(h.free, LiveBlock(h.live, a).End());
    if k < |h.free| && Join(LiveBlock(h.live, a), h.free[k]).size < need then |h.free| else k
  }

  /** realloc */
  function Realloc(h: Heap, p: int, n: int, m: int): (r: Result) {
    var a := p - HDR;
    var need := Align(n);
    if p == 0 then Malloc(h, n, m)
    else if n == 0 then Result(Free(h, p), 0)
    else if a !in h.live then Result(h, 0)
    else if h.live[a] >= need then Result(Split(h, a, need), p)
    else
      var k := Absorbable(h, a, need);
      if k < |h.free| then Result(Split(Absorb(h, a, k), a, need), p)
      else
        var r := Malloc(h, need, m);
        if r.ptr == 0 then r else Result(Free(r.heap, p), r.ptr)
  }
}
