// The rounding expression of drivers/pcie/tegrabl_pcie.c:164 and 195, ((x - 1) | (s - 1)) + 1, in
// 64-bit arithmetic: for a power of two it is the least multiple at or above x.
module PcieRounding {
  import opened Arith

  const W32: nat := 0x1_0000_0000
  const W64: nat := 0x1_0000_0000_0000_0000

  ghost predicate PowerOfTwo(s: nat) {
    exists k: nat :: s == Pow2(k)
  }

  /** Bitwise or. */
  function Or(x: nat, y: nat): nat {
    if x == 0 then y else if y == 0 then x
    else 2 * Or(x / 2, y / 2) + if x % 2 == 1 || y % 2 == 1 then 1 else 0
  }

  /** Or-ing with a block of low ones fills the block. */
  lemma {:induction false} OrLowOnes(y: nat, k: nat)
    ensures Or(y, Pow2(k) - 1) + 1 == (y / Pow2(k) + 1) * Pow2(k)
  {
    hide Or;
    OrZero(y);
    if k > 0 {
      OrLowOnes(y / 2, k - 1);
      FillOneMore(y, Pow2(k - 1));
    }
  }

  lemma OrZero(y: nat)
    ensures Or(y, 0) == y
  {
  }

  lemma FillOneMore(y: nat, p: nat)
    requires p > 0 && Or(y / 2, p - 1) + 1 == (y / 2 / p + 1) * p
    ensures Or(y, 2 * p - 1) + 1 == (y / (2 * p) + 1) * (2 * p)
  {
    hide Or;
    HalveDivisor(y, p);
    FillTwice(y, p, y / (2 * p) + 1);
  }

  lemma FillTwice(y: nat, p: nat, n: nat)
    requires p > 0 && Or(y / 2, p - 1) + 1 == n * p
    ensures Or(y, 2 * p - 1) + 1 == n * (2 * p)
  {
    hide *;
    var o := Or(y / 2, p - 1);
    OrOdd(y, p - 1);
    assert 2 * (p - 1) + 1 == 2 * p - 1;
    assert Or(y, 2 * p - 1) == 2 * o + 1;
    Double(n, p);
    assert 2 * o + 2 == 2 * (n * p);
  }

  lemma Double(n: nat, p: nat)
    ensures n * (2 * p) == 2 * (n * p)
  {
  }

  /** Or with an odd number: the low bit is set, the rest is the or of the halves. */
  lemma OrOdd(y: nat, m: nat)
    ensures Or(y, 2 * m + 1) == 2 * Or(y / 2, m) + 1
  {
    if y > 0 && m == 0 {
      assert Or(y / 2, 0) == y / 2;
    }
  }

  lemma HalveDivisor(y: nat, p: nat)
    requires p > 0
    ensures y / 2 / p == y / (2 * p)
  {
    var q := y / 2 / p;
    var r := y / 2 % p;
    assert y / 2 == q * p + r;
    assert y == q * (2 * p) + (2 * r + y % 2) by {
      assert q * (2 * p) == 2 * (q * p);
    }
    DivModUnique(y, 2 * p, q, 2 * r + y % 2);
  }

  /** The rounding expression of the source, in 64-bit arithmetic. */
  function RoundUp(x: nat, s: nat): nat {
    (Or((x - 1) % W64, (s - 1) % W64) + 1) % W64
  }

  /** `v` is the least multiple of `s` at or above `x`. */
  ghost predicate LeastMultiple(v: nat, x: nat, s: nat)
    requires s > 0
  {
    && v % s == 0 && x <= v < x + s && v == x + (0 - x) % s
    && forall y: nat :: y % s == 0 && x <= y ==> v <= y
  }

  /** For a power of two the expression is that multiple, cursor zero included. */
  lemma RoundUpIsLeast(x: nat, s: nat)
    requires PowerOfTwo(s) && x < W32 && s < W32
    ensures s > 0 && LeastMultiple(RoundUp(x, s), x, s)
  {
    var k: nat :| s == Pow2(k);
    if x > 0 {
      OrLowOnes(x - 1, k);
      RoundUpPositive(x, s);
    } else {
      OnesDivide(k);
      OrLowOnes(W64 - 1, k);
      RoundUpOfZero(s);
    }
  }

  lemma RoundUpPositive(x: nat, s: nat)
    requires 0 < s < W32 && 0 < x < W32 && Or(x - 1, s - 1) + 1 == ((x - 1) / s + 1) * s
    ensures LeastMultiple(RoundUp(x, s), x, s)
  {
    hide *;
    Bracket(x, s);
    RoundUpMultiple(x, s, (x - 1) / s + 1, ((x - 1) / s + 1) * s);
  }

  lemma RoundUpMultiple(x: nat, s: nat, q: nat, v: nat)
    requires 0 < s < W32 && 0 < x < W32 && Or(x - 1, s - 1) + 1 == v == q * s && x <= v < x + s
    ensures LeastMultiple(RoundUp(x, s), x, s)
  {
    hide LeastMultiple, Or;
    RoundUpValue(x, s, v);
    MultipleAbove(x, s, q, v);
  }

  lemma Bracket(x: nat, s: nat)
    requires 0 < s && 0 < x
    ensures x <= ((x - 1) / s + 1) * s < x + s
  {
    Distribute((x - 1) / s, 1, s);
    assert x - 1 == ((x - 1) / s) * s + (x - 1) % s;
  }

  lemma RoundUpValue(x: nat, s: nat, v: nat)
    requires 0 < s < W32 && 0 < x < W32 && Or(x - 1, s - 1) + 1 == v < x + s
    ensures RoundUp(x, s) == v
  {
    hide Or;
    Small(x - 1);
    Small(s - 1);
    Small(v);
  }

  lemma Small(a: nat)
    requires a < W64
    ensures a % W64 == a
  {
  }

  lemma RoundUpOfZero(s: nat)
    requires 0 < s < W32 && Or(W64 - 1, s - 1) + 1 == W64
    ensures LeastMultiple(RoundUp(0, s), 0, s)
  {
    hide Or;
    Small(s - 1);
    assert (0 - 1) % W64 == W64 - 1;
  }

  lemma MultipleAbove(x: nat, s: nat, q: nat, v: nat)
    requires s > 0 && v == q * s && x <= v < x + s
    ensures LeastMultiple(v, x, s)
  {
    assert v % s == 0 by {
      DivModUnique(v, s, q, 0);
    }
    assert v == x + (0 - x) % s by {
      Distribute(q, 0 - q, s);
      DivModUnique(0 - x, s, 0 - q, v - x);
    }
    forall y: nat | y % s == 0 && x <= y
      ensures v <= y
    {
      NoMultipleBetween(x, s, q, y);
    }
  }

  lemma NoMultipleBetween(x: nat, s: nat, q: nat, y: nat)
    requires s > 0 && q * s < x + s && y % s == 0 && x <= y
    ensures q * s <= y
  {
    assert y == (y / s) * s;
    Distribute(q, -1, s);
    MulMonotone(y / s, q - 1, s);
    MulMonotone(q, y / s, s);
  }

  lemma Pow2Of64()
    ensures Pow2(32) == W32 && Pow2(64) == W64
  {
    assert Pow2(4) == 16;
    hide Pow2;
    Pow2Split(4, 4);
    assert Pow2(8) == 256;
    Pow2Split(8, 8);
    assert Pow2(16) == 0x1_0000;
    Pow2Split(16, 16);
    assert Pow2(32) == W32;
    Pow2Split(32, 32);
  }

  lemma OnesDivide(k: nat)
    requires Pow2(k) < W32
    ensures ((W64 - 1) / Pow2(k) + 1) * Pow2(k) == W64
  {
    Pow2Of64();
    if k >= 32 {
      Pow2Grows(32, k);
    }
    hide Pow2;
    Pow2Split(64 - k, k);
    assert 64 - k + k == 64;
    WholeMultiple(Pow2(64 - k), Pow2(k));
  }

  lemma WholeMultiple(n: nat, s: nat)
    requires n > 0 && s > 0
    ensures ((n * s - 1) / s + 1) * s == n * s
  {
    Distribute(n, -1, s);
    DivModUnique(n * s - 1, s, n - 1, s - 1);
  }

  lemma OrWithAllOnes(x: nat)
    requires x < W32
    ensures Or(x, W64 - 1) == W64 - 1
  {
    hide Pow2, Or;
    Pow2Of64();
    OrBounded(x, 64);
  }

  lemma {:induction false} OrBounded(x: nat, k: nat)
    requires x < Pow2(k)
    ensures Or(x, Pow2(k) - 1) == Pow2(k) - 1
  {
    OrLowOnes(x, k);
    DivModUnique(x, Pow2(k), 0, x);
  }
}
