/** Machine integers, network byte order, and stores into byte buffers. */
module Bytes {
  import opened Bits

  type byte = x: int | 0 <= x < 0x100
  type u16 = x: int | 0 <= x < 0x1_0000
  type u32 = x: int | 0 <= x < 0x1_0000_0000
  type u64 = x: int | 0 <= x < 0x1_0000_0000_0000_0000

  datatype Option<T> = None | Some(value: T)

  function BE16(v: u16): (s: seq<byte>)
    ensures |s| == 2
  {
    [v / 0x100, v % 0x100]
  }

  function BE32(v: u32): (s: seq<byte>)
    ensures |s| == 4
  {
    BE16(v / 0x1_0000) + BE16(v % 0x1_0000)
  }

  function Pair(hi: byte, lo: byte): (r: u16) { (hi as int) * 0x100 + lo }

  function Get16(s: seq<byte>, i: nat): (r: u16)
    requires i + 2 <= |s|
  {
    Pair(s[i], s[i + 1])
  }

  function Get32(s: seq<byte>, i: nat): (r: u32)
    requires i + 4 <= |s|
  {
    (Get16(s, i) as int) * 0x1_0000 + Get16(s, i + 2)
  }

  /** A value that was stored in network order anywhere in a buffer is read back. */
  lemma Get16BE(p: seq<byte>, v: u16, q: seq<byte>)
    ensures Get16(p + BE16(v) + q, |p|) == v
  {
    var s := p + BE16(v) + q;
    assert s[|p|] == BE16(v)[0] && s[|p| + 1] == BE16(v)[1];
  }

  lemma Get32BE(p: seq<byte>, v: u32, q: seq<byte>)
    ensures Get32(p + BE32(v) + q, |p|) == v
  {
    var hi, lo := v / 0x1_0000, v % 0x1_0000;
    var s := p + BE32(v) + q;
    assert s == p + BE16(hi) + (BE16(lo) + q) && s == (p + BE16(hi)) + BE16(lo) + q;
    Get16BE(p, hi, BE16(lo) + q);
    Get16BE(p + BE16(hi), lo, q);
  }

  // htons and htonl on a little-endian machine: swapping the bytes and storing the result
  // in machine order is a store in network order.

  function Htons(v: u16): (r: u16) { Pair(v % 0x100, v / 0x100) }

  function Htonl(v: u32): (r: u32) { (Htons(v % 0x1_0000) as int) * 0x1_0000 + Htons(v / 0x1_0000) }

  function LE16(v: u16): (r: seq<byte>) { [v % 0x100, v / 0x100] }

  function LE32(v: u32): (r: seq<byte>) { LE16(v % 0x1_0000) + LE16(v / 0x1_0000) }

  lemma SwappedStore16(v: u16)
    ensures LE16(Htons(v)) == BE16(v) && Htons(Htons(v)) == v
  {
    var h := Htons(v);
    assert h / 0x100 == v % 0x100 && h % 0x100 == v / 0x100;
  }

  lemma SwappedStoreIsNetworkOrder(v: u16, w: u32)
    ensures LE16(Htons(v)) == BE16(v) && Htons(Htons(v)) == v
    ensures LE32(Htonl(w)) == BE32(w) && Htonl(Htonl(w)) == w
  {
    var hi, lo, x := w / 0x1_0000, w % 0x1_0000, Htonl(w);
    SwappedStore16(v);
    SwappedStore16(hi);
    SwappedStore16(lo);
    Halves(Htons(lo), Htons(hi));
    assert x / 0x1_0000 == Htons(lo) && x % 0x1_0000 == Htons(hi);
  }

  lemma Halves(a: u16, b: u16)
    ensures ((a as int) * 0x1_0000 + b) / 0x1_0000 == a && ((a as int) * 0x1_0000 + b) % 0x1_0000 == b
  {}

  /** The C operator & on 32-bit values. */
  function And32(x: u32, y: u32): (r: u32) { And(x, y) }

  /** The C operator ^ on 32-bit values. */
  function Xor32(x: u32, y: u32): (r: u32) {
    Pow2Of32();
    XorBound(x, y, 32);
    Xor(x, y)
  }

  /** Each value of one side gives a different result. */
  lemma Xor32Cancels(x: u32, y: u32, z: u32)
    ensures Xor32(x, z) == Xor32(y, z) <==> x == y
  {
    XorTwice(x, z);
    XorTwice(y, z);
  }

  // ---------------------------------------------------------------- buffers

  /** Buffer b with the bytes s stored at offset k. */
  function Overlay(b: seq<byte>, k: nat, s: seq<byte>): (r: seq<byte>)
    requires k + |s| <= |b|
    ensures |r| == |b|
    ensures forall i :: 0 <= i < |b| ==> r[i] == if k <= i < k + |s| then s[i - k] else b[i]
  {
    b[..k] + s + b[k + |s|..]
  }

  /** memcpy into a buffer, and the stores through a cast pointer. */
  method Put(a: array<byte>, k: nat, s: seq<byte>)
    requires k + |s| <= a.Length
    modifies a
    ensures a[..] == Overlay(old(a[..]), k, s)
  {
    for i := 0 to |s|
      invariant forall j :: 0 <= j < a.Length ==> a[j] == if k <= j < k + i then s[j - k] else old(a[j])
    {
      a[k + i] := s[i];
    }
  }

  /** The same store, when the buffer is filled from the front. */
  method Append(a: array<byte>, k: nat, s: seq<byte>)
    requires k + |s| <= a.Length
    modifies a
    ensures a[..k + |s|] == old(a[..k]) + s
  {
    Put(a, k, s);
  }

  lemma Regroup<T>(a: seq<T>, b: seq<T>, c: seq<T>)
    ensures a + b + c == a + (b + c)
  {}

  function Zeros(n: nat): (s: seq<byte>)
    ensures |s| == n && forall i :: 0 <= i < n ==> s[i] == 0
  {
    seq(n, _ => 0)
  }
}
