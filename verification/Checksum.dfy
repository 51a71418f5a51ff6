/** The Internet checksum of include/netd.h, against the arithmetic of RFC 1071, section 1. */
module Checksum {
  import opened Bytes

  const ONES := 0xFFFF

  /** The sum of the big-endian 16-bit words, an odd last byte padded with zero. */
  function WordSum(s: seq<byte>): (r: nat) {
    if |s| == 0 then 0
    else if |s| == 1 then Pair(s[0], 0)
    else Pair(s[0], s[1]) + WordSum(s[2..])
  }

  /** The ones-complement value of a sum: congruent modulo 65535, and zero only for zero. */
  function OnesValue(n: nat): (r: u16) {
    if n == 0 then 0 else (n - 1) % ONES + 1
  }

  function Cksum(s: seq<byte>): (r: u16) { ONES - OnesValue(WordSum(s)) }

  /** One end-around carry. */
  function Fold(n: nat): (r: nat) { n % 0x1_0000 + n / 0x1_0000 }

  lemma FoldKeepsOnesValue(n: nat)
    ensures OnesValue(Fold(n)) == OnesValue(n)
    ensures n >= 0x1_0000 ==> Fold(n) < n
    ensures n < 0x1_0000 ==> OnesValue(n) == n
    ensures n < 0x1_0000_0000 ==> Fold(Fold(n)) < 0x1_0000
  {
    var q := n / 0x1_0000;
    assert n == Fold(n) + q * ONES;
    if n > 0 {
      assert Fold(n) > 0;
      ModShift(Fold(n) - 1, q);
    }
  }

  lemma ModShift(a: nat, q: nat)
    ensures (a + q * ONES) % ONES == a % ONES
  {
    var r := (a + q * ONES) % ONES;
    if q > 0 { ModShift(a, q - 1); assert a + q * ONES == (a + (q - 1) * ONES) + ONES; }
  }

  lemma WordSumBound(s: seq<byte>)
    ensures WordSum(s) <= (|s| + 1) / 2 * ONES
  {}

  lemma WordSumStep(s: seq<byte>, i: nat)
    requires i + 1 < |s|
    ensures WordSum(s[i..]) == Pair(s[i], s[i + 1]) + WordSum(s[i + 2..])
  {
    assert s[i..][2..] == s[i + 2..];
  }

  lemma WordSumRest(s: seq<byte>, i: nat)
    requires i <= |s| <= i + 1
    ensures WordSum(s[i..]) == if i < |s| then Pair(s[i], 0) else 0
  {}

  /** The accumulating loop of inet_cksum, whose 32-bit sum does not overflow up to 131074 bytes. */
  method SumWords(data: seq<byte>) returns (sum: u32)
    ensures |data| <= 131074 ==> sum == WordSum(data)
  {
    ghost var bounded := |data| <= 131074;
    WordSumBound(data);
    assert bounded ==> WordSum(data) < 0x1_0000_0000;
    sum := 0;
    var i := 0;
    assert data[0..] == data;
    while i + 1 < |data|
      invariant 0 <= i <= |data| && i % 2 == 0
      invariant bounded ==> sum + WordSum(data[i..]) == WordSum(data)
    {
      WordSumStep(data, i);
      sum := Add32(sum, Pair(data[i], data[i + 1]));
      i := i + 2;
    }
    WordSumRest(data, i);
    if |data| % 2 == 1 {
      sum := Add32(sum, Pair(data[|data| - 1], 0));
    }
  }

  /** uint32_t addition. */
  function Add32(x: u32, y: u32): (r: u32)
    ensures x + y < 0x1_0000_0000 ==> r == x + y
  {
    (x + y) % 0x1_0000_0000
  }

  /** inet_cksum */
  method InetCksum(data: seq<byte>) returns (c: u16)
    ensures |data| <= 131074 ==> c == Cksum(data)
  {
    var sum := SumWords(data);
    ghost var n := sum;
    while sum >= 0x1_0000
      invariant OnesValue(sum) == OnesValue(n)
    {
      FoldKeepsOnesValue(sum);
      sum := sum % 0x1_0000 + sum / 0x1_0000;
    }
    FoldKeepsOnesValue(sum);
    c := ONES - sum;
  }

  // ---------------------------------------------------------------- verification by the receiver

  /** A message verifies when its checksum, taken over the stored checksum too, is zero. */
  predicate Verifies(s: seq<byte>) { Cksum(s) == 0 }

  lemma VerifiesMeans(s: seq<byte>)
    ensures Verifies(s) <==> WordSum(s) != 0 && WordSum(s) % ONES == 0
  {
    var n := WordSum(s);
    if n > 0 {
      var q := (n - 1) / ONES;
      assert n == q * ONES + OnesValue(n);
      ModShift(OnesValue(n), q);
    }
  }

  /** Storing a word over two zero bytes at an even offset adds that word to the sum. */
  lemma {:induction false} StoreAddsWord(s: seq<byte>, k: nat, v: u16)
    requires k % 2 == 0 && k + 2 <= |s| && s[k] == 0 && s[k + 1] == 0
    ensures WordSum(Overlay(s, k, BE16(v))) == WordSum(s) + v
    decreases k
  {
    var r := Overlay(s, k, BE16(v));
    if k == 0 {
      assert r[2..] == s[2..];
    } else {
      assert r[2..] == Overlay(s[2..], k - 2, BE16(v));
      StoreAddsWord(s[2..], k - 2, v);
    }
  }

  /** A message whose checksum field was zero verifies once its checksum is stored there. */
  lemma StoredChecksumVerifies(s: seq<byte>, k: nat)
    requires k % 2 == 0 && k + 2 <= |s| && s[k] == 0 && s[k + 1] == 0
    ensures Verifies(Overlay(s, k, BE16(Cksum(s))))
  {
    var r, n := Overlay(s, k, BE16(Cksum(s))), WordSum(s);
    StoreAddsWord(s, k, Cksum(s));
    VerifiesMeans(r);
    if n > 0 {
      var q := (n - 1) / ONES;
      assert n == q * ONES + OnesValue(n);
      assert WordSum(r) == 0 + (q + 1) * ONES;
      ModShift(0, q + 1);
    } else {
      assert WordSum(r) == ONES;
    }
  }
}
