/** The bitwise operators of C on unsigned values, bit by bit. */
module Bits {

  function And(x: nat, y: nat): (r: nat)
    ensures r <= x
  {
    if x == 0 || y == 0 then 0 else 2 * And(x / 2, y / 2) + x % 2 * (y % 2)
  }

  function Xor(x: nat, y: nat): (r: nat)
    decreases x + y
  {
    if x == 0 then y else if y == 0 then x else 2 * Xor(x / 2, y / 2) + (x + y) % 2
  }

  function Pow2(k: nat): (r: nat)
    ensures r > 0
  {
    if k == 0 then 1 else 2 * Pow2(k - 1)
  }

  lemma Pow2Of32()
    ensures Pow2(32) == 0x1_0000_0000
  {
    assert Pow2(8) == 0x100;
    assert Pow2(16) == 0x1_0000;
    assert Pow2(24) == 0x100_0000;
  }

  lemma {:induction false} Pow2Grows(k: nat, w: nat)
    requires k <= w
    ensures Pow2(k) <= Pow2(w)
  {
    if k < w { Pow2Grows(k, w - 1); }
  }

  /** x >> k */
  function High(x: nat, k: nat): (r: nat) {
    if k == 0 then x else High(x / 2, k - 1)
  }

  /** A mask of w - k ones and k zeros clears the k lowest bits of a w-bit number. */
  lemma {:induction false} AndPrefixMask(x: nat, k: nat, w: nat)
    requires k <= w && x < Pow2(w)
    ensures Pow2(k) <= Pow2(w) && And(x, Pow2(w) - Pow2(k)) == High(x, k) * Pow2(k)
  {
    Pow2Grows(k, w);
    if k == 0 {
      AndOnes(x, w);
    } else {
      AndPrefixMask(x / 2, k - 1, w - 1);
      Pow2Grows(k - 1, w - 1);
      AndEven(x, Pow2(w - 1) - Pow2(k - 1));
      assert High(x, k) == High(x / 2, k - 1);
      Doubled(High(x, k), Pow2(k - 1));
    }
  }

  lemma AndEven(x: nat, y: nat)
    ensures And(x, 2 * y) == 2 * And(x / 2, y)
  {
    if x > 0 && y > 0 { assert 2 * y / 2 == y && 2 * y % 2 == 0; }
  }

  lemma Doubled(a: nat, b: nat)
    ensures 2 * (a * b) == a * (2 * b)
  {}

  /** Bit i of x. */
  function Bit(x: nat, i: nat): (b: nat) { High(x, i) % 2 }

  /** Two numbers agree under a mask exactly when they agree in each bit it selects. */
  lemma {:induction false} AndAgrees(x: nat, y: nat, mask: nat)
    ensures And(x, mask) == And(y, mask) <==> forall i: nat :: Bit(mask, i) == 1 ==> Bit(x, i) == Bit(y, i)
    decreases mask
  {
    if mask == 0 {
      forall i: nat ensures Bit(0, i) == 0 { HighOfZero(i); }
    } else {
      AndAgrees(x / 2, y / 2, mask / 2);
      AndStep(x, mask);
      AndStep(y, mask);
      if And(x, mask) == And(y, mask) {
        assert And(x, mask) % 2 == And(y, mask) % 2;
        forall i: nat | Bit(mask, i) == 1 ensures Bit(x, i) == Bit(y, i) {
          if i > 0 { assert Bit(mask / 2, i - 1) == 1 ==> Bit(x / 2, i - 1) == Bit(y / 2, i - 1); }
        }
      }
      if forall i: nat :: Bit(mask, i) == 1 ==> Bit(x, i) == Bit(y, i) {
        assert Bit(mask, 0) == 1 ==> Bit(x, 0) == Bit(y, 0);
        forall i: nat | Bit(mask / 2, i) == 1 ensures Bit(x / 2, i) == Bit(y / 2, i) {
          assert Bit(mask, i + 1) == 1;
        }
      }
    }
  }

  /** The lowest bit of a conjunction, and the others. */
  lemma AndStep(x: nat, mask: nat)
    ensures And(x, mask) / 2 == And(x / 2, mask / 2) && And(x, mask) % 2 == x % 2 * (mask % 2)
    ensures mask % 2 == 1 ==> And(x, mask) % 2 == x % 2
    ensures mask % 2 == 0 ==> And(x, mask) % 2 == 0
  {
    if mask % 2 == 0 { assert x % 2 * (mask % 2) == 0; }
    else { assert x % 2 * (mask % 2) == x % 2; }
  }

  lemma {:induction false} HighOfZero(i: nat)
    ensures High(0, i) == 0
  {
    if i > 0 { HighOfZero(i - 1); }
  }

  /** The shift is a division. */
  lemma {:induction false} HighIsQuotient(x: nat, k: nat)
    ensures High(x, k) == x / Pow2(k)
  {
    if k > 0 {
      HighIsQuotient(x / 2, k - 1);
      HalveTwice(x, Pow2(k - 1));
    } else {
      assert x / 1 == x;
    }
  }

  /** Dividing by 2p is halving and dividing by p. */
  lemma HalveTwice(x: nat, p: nat)
    requires p > 0
    ensures x / 2 / p == x / (2 * p)
  {
    var h := x / 2;
    var q, s := h / p, h % p;
    assert h == p * q + s;
    Doubled(q, p);
    QuotientIs(x, 2 * p, q, 2 * s + x % 2);
  }

  lemma QuotientIs(n: nat, p: nat, q: nat, s: nat)
    requires s < p && n == q * p + s
    ensures n / p == q
  {
    var e, u := n / p, n % p;
    assert n == e * p + u && 0 <= u < p;
    Distribute(e, q, p);
    assert (e - q) * p == s - u;
    assert e - q >= 1 ==> (e - q) * p >= p;
    assert e - q <= -1 ==> (e - q) * p + p <= 0;
  }

  lemma Distribute(a: int, b: int, p: int)
    ensures (a - b) * p == a * p - b * p
  {}

  lemma {:induction false} AndOnes(x: nat, w: nat)
    requires x < Pow2(w)
    ensures And(x, Pow2(w) - 1) == x
  {
    if x > 0 {
      AndOnes(x / 2, w - 1);
      assert (Pow2(w) - 1) / 2 == Pow2(w - 1) - 1 && (Pow2(w) - 1) % 2 == 1;
    }
  }

  lemma SameMultiple(a: nat, b: nat, p: nat)
    requires p > 0
    ensures a * p == b * p <==> a == b
  {
    Distribute(a, b, p);
    assert a - b >= 1 ==> (a - b) * p >= p;
    assert a - b <= -1 ==> (a - b) * p + p <= 0;
  }

  lemma {:induction false} XorTwice(x: nat, y: nat)
    ensures Xor(Xor(x, y), y) == x
    decreases x + y
  {
    if y == 0 {
    } else if x == 0 {
      XorSelf(y);
    } else {
      XorTwice(x / 2, y / 2);
      XorHalf(x, y);
      XorHalf(Xor(x, y), y);
    }
  }

  lemma {:induction false} XorSelf(y: nat)
    ensures Xor(y, y) == 0
  {
    if y > 0 { XorSelf(y / 2); }
  }

  lemma XorHalf(x: nat, y: nat)
    ensures Xor(x, y) / 2 == Xor(x / 2, y / 2) && Xor(x, y) % 2 == (x + y) % 2
  {
    if x == 0 { assert Xor(0, y / 2) == y / 2; }
    else if y == 0 { assert Xor(x / 2, 0) == x / 2; }
  }

  lemma {:induction false} XorBound(x: nat, y: nat, w: nat)
    requires x < Pow2(w) && y < Pow2(w)
    ensures Xor(x, y) < Pow2(w)
    decreases w
  {
    if w > 0 && x > 0 && y > 0 { XorBound(x / 2, y / 2, w - 1); }
  }
}
