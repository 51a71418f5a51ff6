/** How an abstract heap is laid out in memory.

    Memory is addressed in bytes and read in 64-bit words.  A header at address b is three
    words: the payload size at b, the next free block at b + 8, and at b + 16 the magic
    number in the low half and the free flag in the high half.  The list head g_uheap_free
    is the word at LIST_SLOT, so that a `uheap_hdr_t **` is simply an address. */
module HeapMemory {
  import opened HeapSpec

  type Memory = map<int, int>

  const MAGIC := 0xC0FFEE55
  const HALF := 0x1_0000_0000
  const TAG_LIVE := MAGIC
  const TAG_FREE := MAGIC + HALF
  const TAG_WIPED := HALF

  /** Words that were never written read as some fixed value. */
  function Rd(m: Memory, x: int): (r: int) {
    if x in m then m[x] else 0
  }

  function SizeAt(m: Memory, b: int): (r: int) { Rd(m, b) }

  function NextAt(m: Memory, b: int): (r: int) { Rd(m, b + 8) }

  function MagicAt(m: Memory, b: int): (r: int) { Rd(m, b + 16) % HALF }

  function FreeAt(m: Memory, b: int): (r: int) { Rd(m, b + 16) / HALF }

  function Tag(magic: int, free: int): (r: int) { magic + free * HALF }

  /** Store the three words of a header. */
  function WriteHeader(m: Memory, b: int, size: int, next: int, tag: int): (r: Memory) {
    m[b := size][b + 8 := next][b + 16 := tag]
  }

  /** Where the address of list element i is stored. */
  function SlotOf(l: seq<Block>, i: int): (r: int)
    requires 0 <= i <= |l|
  {
    if i == 0 then LIST_SLOT else l[i - 1].addr + 8
  }

  /** The address of list element i, or NULL behind the last one. */
  function AddrAt(l: seq<Block>, i: int): (r: int)
    requires 0 <= i <= |l|
  {
    if i < |l| then l[i].addr else 0
  }

  ghost predicate Linked(m: Memory, l: seq<Block>) {
    forall i :: 0 <= i <= |l| ==> Rd(m, SlotOf(l, i)) == AddrAt(l, i)
  }

  ghost predicate FreeHeaders(m: Memory, l: seq<Block>) {
    forall i :: 0 <= i < |l| ==> Rd(m, l[i].addr) == l[i].size && Rd(m, l[i].addr + 16) == TAG_FREE
  }

  ghost predicate LiveHeaders(m: Memory, live: map<int, int>) {
    forall a :: a in live ==> Rd(m, a) == live[a] && Rd(m, a + 16) == TAG_LIVE
  }

  /** The memory holds this heap: the linked list is h.free, and every header says what it should. */
  ghost predicate Rep(m: Memory, h: Heap) {
    Linked(m, h.free) && FreeHeaders(m, h.free) && LiveHeaders(m, h.live)
  }

  // ---------------------------------------------------------------- frames

  /** Only the list head and bytes of the given free blocks may differ. */
  ghost predicate OnlyFreeChanged(m: Memory, m': Memory, l: seq<Block>) {
    forall x :: Rd(m', x) == Rd(m, x) || x == LIST_SLOT || InFree(l, x)
  }

  /** Every word of the payload at a is the same. */
  ghost predicate SamePayload(m: Memory, m': Memory, b: Block) {
    forall x :: b.addr + HDR <= x < b.End() ==> Rd(m', x) == Rd(m, x)
  }

  // ---------------------------------------------------------------- list updates

  /** Block b belongs right before element k. */
  ghost predicate Fits(l: seq<Block>, k: int, b: Block) {
    && 0 <= k <= |l| && Placed(b)
    && (forall i :: 0 <= i < k ==> l[i].End() <= b.addr)
    && (forall i :: k <= i < |l| ==> b.End() <= l[i].addr)
  }

  /** The three writes of uheap_insert_free: set the flag, point b at element k, point the slot at b. */
  function Linking(m: Memory, l: seq<Block>, k: int, b: Block): (r: Memory)
    requires 0 <= k <= |l|
  {
    m[b.addr + 16 := TAG_FREE][b.addr + 8 := AddrAt(l, k)][SlotOf(l, k) := b.addr]
  }

  lemma SlotsAscend(l: seq<Block>, i: int, j: int)
    requires Ordered(l) && 0 <= i < j <= |l|
    ensures SlotOf(l, i) < SlotOf(l, j)
  {
    assert Placed(l[j - 1]);
    if i > 0 { assert Placed(l[i - 1]) && l[i - 1].End() <= l[j - 1].addr; }
  }

  /** A slot is a word of no other block's header. */
  lemma SlotsOutside(l: seq<Block>, i: int, k: int, b: Block)
    requires Ordered(l) && Fits(l, k, b) && 0 <= i <= |l|
    ensures !b.Contains(SlotOf(l, i))
  {
    if i > 0 { assert Placed(l[i - 1]); }
  }

  lemma LinkingLinks(m: Memory, l: seq<Block>, k: int, b: Block)
    requires Ordered(l) && Fits(l, k, b) && Linked(m, l)
    ensures Linked(Linking(m, l, k, b), l[..k] + [b] + l[k..])
  {
    var r, m' := l[..k] + [b] + l[k..], Linking(m, l, k, b);
    SlotsOutside(l, k, k, b);
    assert b.Contains(b.addr + 8) && b.Contains(b.addr + 16);
    forall i | 0 <= i <= |l| && i != k ensures Rd(m', SlotOf(l, i)) == AddrAt(l, i) {
      SlotsOutside(l, i, k, b);
      if i < k { SlotsAscend(l, i, k); } else { SlotsAscend(l, k, i); }
    }
    forall i | 0 <= i <= |r| ensures Rd(m', SlotOf(r, i)) == AddrAt(r, i) {
      if i <= k {
        assert SlotOf(r, i) == SlotOf(l, i);
      } else if i == k + 1 {
        assert r[k] == b;
      } else {
        assert SlotOf(r, i) == SlotOf(l, i - 1) && AddrAt(r, i) == AddrAt(l, i - 1);
      }
    }
  }

  lemma LinkingFrame(m: Memory, l: seq<Block>, k: int, b: Block)
    requires Ordered(l) && Fits(l, k, b)
    ensures OnlyFreeChanged(m, Linking(m, l, k, b), l[..k] + [b] + l[k..])
  {
    var r := l[..k] + [b] + l[k..];
    forall x | Rd(Linking(m, l, k, b), x) != Rd(m, x) && x != LIST_SLOT ensures InFree(r, x) {
      if k > 0 && x == l[k - 1].addr + 8 {
        assert Placed(l[k - 1]) && r[k - 1].Contains(x);
      } else {
        assert r[k].Contains(x);
      }
    }
  }

  /** Writing one word that lies in no block of the list spoils no header ... */
  lemma HeadersKept(m: Memory, l: seq<Block>, x: int, v: int)
    requires Ordered(l) && FreeHeaders(m, l) && !InFree(l, x)
    ensures FreeHeaders(m[x := v], l)
  {
    forall i | 0 <= i < |l| ensures x != l[i].addr && x != l[i].addr + 16 {
      assert Placed(l[i]) && l[i].Contains(l[i].addr) && l[i].Contains(l[i].addr + 16);
    }
  }

  /** ... and neither does writing a list slot. */
  lemma SlotWriteKeepsHeaders(m: Memory, l: seq<Block>, k: int, v: int)
    requires Ordered(l) && FreeHeaders(m, l) && 0 <= k <= |l|
    ensures FreeHeaders(m[SlotOf(l, k) := v], l)
  {
    forall i | 0 <= i < |l| ensures SlotOf(l, k) != l[i].addr && SlotOf(l, k) != l[i].addr + 16 {
      assert Placed(l[i]);
      if k > 0 {
        assert Placed(l[k - 1]);
        assert i < k - 1 ==> l[i].End() <= l[k - 1].addr;
        assert i > k - 1 ==> l[k - 1].End() <= l[i].addr;
      }
    }
  }

  lemma HeadersSplice(m: Memory, l: seq<Block>, k: nat, b: Block)
    requires k <= |l| && FreeHeaders(m, l) && FreeHeaders(m, [b])
    ensures FreeHeaders(m, l[..k] + [b] + l[k..])
  {
    var r := l[..k] + [b] + l[k..];
    assert [b][0] == b;
    assert forall i :: 0 <= i < |r| ==> r[i] == if i < k then l[i] else if i == k then b else l[i - 1];
  }

  lemma LinkingHeaders(m: Memory, l: seq<Block>, k: int, b: Block)
    requires Ordered(l) && Fits(l, k, b) && FreeHeaders(m, l) && Rd(m, b.addr) == b.size
    ensures FreeHeaders(Linking(m, l, k, b), l[..k] + [b] + l[k..])
  {
    LinkingOldHeaders(m, l, k, b);
    SlotsOutside(l, k, k, b);
    assert b.Contains(b.addr + 16) && b.Contains(b.addr);
    HeadersSplice(Linking(m, l, k, b), l, k, b);
  }

  lemma LinkingOldHeaders(m: Memory, l: seq<Block>, k: int, b: Block)
    requires Ordered(l) && Fits(l, k, b) && FreeHeaders(m, l)
    ensures FreeHeaders(Linking(m, l, k, b), l)
  {
    var m1 := m[b.addr + 16 := TAG_FREE];
    var m2 := m1[b.addr + 8 := AddrAt(l, k)];
    forall x | b.Contains(x) ensures !InFree(l, x) {}
    assert b.Contains(b.addr + 8) && b.Contains(b.addr + 16);
    HeadersKept(m, l, b.addr + 16, TAG_FREE);
    HeadersKept(m1, l, b.addr + 8, AddrAt(l, k));
    SlotWriteKeepsHeaders(m2, l, k, b.addr);
  }

  /** A write that stays inside the free blocks leaves the live headers alone. */
  lemma LiveHeadersKept(m: Memory, m': Memory, h: Heap)
    requires Shape(h) && LiveHeaders(m, h.live) && OnlyFreeChanged(m, m', h.free)
    ensures LiveHeaders(m', h.live)
    ensures forall a :: a in h.live ==> SamePayload(m, m', LiveBlock(h.live, a))
  {
    forall a, x | a in h.live && LiveBlock(h.live, a).Contains(x) ensures Rd(m', x) == Rd(m, x) {
      assert ApartFromFree(h.free, LiveBlock(h.live, a));
      assert Placed(LiveBlock(h.live, a));
      assert !InFree(h.free, x);
    }
    forall a | a in h.live ensures Rd(m', a) == Rd(m, a) && Rd(m', a + 16) == Rd(m, a + 16) {
      assert Placed(LiveBlock(h.live, a));
      assert LiveBlock(h.live, a).Contains(a) && LiveBlock(h.live, a).Contains(a + 16);
    }
  }

  lemma UnlinkingLinks(m: Memory, l: seq<Block>, k: nat)
    requires Ordered(l) && k < |l| && Linked(m, l)
    ensures Linked(m[SlotOf(l, k) := AddrAt(l, k + 1)], RemoveAt(l, k))
  {
    var r, m' := RemoveAt(l, k), m[SlotOf(l, k) := AddrAt(l, k + 1)];
    forall i | 0 <= i <= |l| && i != k ensures Rd(m', SlotOf(l, i)) == AddrAt(l, i) {
      if i < k { SlotsAscend(l, i, k); } else { SlotsAscend(l, k, i); }
    }
    forall i | 0 <= i <= |r| ensures Rd(m', SlotOf(r, i)) == AddrAt(r, i) {
      if i <= k {
        assert SlotOf(r, i) == SlotOf(l, i);
        assert i < k ==> AddrAt(r, i) == AddrAt(l, i);
        assert i == k ==> AddrAt(r, i) == AddrAt(l, i + 1);
      } else {
        assert SlotOf(r, i) == SlotOf(l, i + 1) && AddrAt(r, i) == AddrAt(l, i + 1);
      }
    }
  }

  lemma UnlinkingHeaders(m: Memory, l: seq<Block>, k: nat)
    requires Ordered(l) && k < |l| && FreeHeaders(m, l)
    ensures var m' := m[SlotOf(l, k) := AddrAt(l, k + 1)];
            FreeHeaders(m', l) && FreeHeaders(m', RemoveAt(l, k)) && OnlyFreeChanged(m, m', l)
  {
    var m' := m[SlotOf(l, k) := AddrAt(l, k + 1)];
    SlotWriteKeepsHeaders(m, l, k, AddrAt(l, k + 1));
    FewerHeaders(m', l, k);
    if k > 0 { assert Placed(l[k - 1]) && l[k - 1].Contains(SlotOf(l, k)); }
  }

  lemma FewerHeaders(m: Memory, l: seq<Block>, k: nat)
    requires k < |l| && FreeHeaders(m, l)
    ensures FreeHeaders(m, RemoveAt(l, k))
  {
    var r := RemoveAt(l, k);
    forall i | 0 <= i < |r| ensures Rd(m, r[i].addr) == r[i].size && Rd(m, r[i].addr + 16) == TAG_FREE {
      assert r[i] == if i < k then l[i] else l[i + 1];
    }
  }
}
