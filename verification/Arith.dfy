// Division facts about a variable divisor, proved once so that the modules
// below only ever reason with products.
module Arith {

  function Min(a: int, b: int): (m: int)
    ensures m <= a && m <= b && (m == a || m == b)
  {
    if a < b then a else b
  }

  /** Quotient and remainder are the only pair with a == q * p + r and 0 <= r < p. */
  lemma DivModUnique(a: int, p: int, q: int, r: int)
    requires 0 < p && 0 <= r < p && a == q * p + r
    ensures a / p == q && a % p == r
  {
    var d := a / p - q;
    assert d * p == r - a % p by {
      assert a == (a / p) * p + a % p;
      assert d * p == (a / p) * p - q * p;
    }
    MulMonotone(1, d, p);
    MulMonotone(d, -1, p);
  }

  lemma MulMonotone(a: int, b: int, p: int)
    requires 0 <= p
    ensures a <= b ==> a * p <= b * p
  {
  }

  lemma Distribute(a: int, b: int, p: int)
    ensures (a + b) * p == a * p + b * p
  {
  }

  /** Adding a whole number of p's changes the quotient by that number and not the remainder. */
  lemma ShiftMod(a: int, k: int, p: int)
    requires 0 < p
    ensures (a + k * p) % p == a % p
    ensures (a + k * p) / p == a / p + k
  {
    assert a + k * p == (a / p + k) * p + a % p by {
      assert (a / p + k) * p == (a / p) * p + k * p;
    }
    DivModUnique(a + k * p, p, a / p + k, a % p);
  }

  /** Successor on a ring of p slots: the counter wraps exactly when the quotient grows. */
  lemma RingSuccessor(n: nat, p: nat)
    requires 0 < p
    ensures n % p + 1 == p ==> (n + 1) % p == 0 && (n + 1) / p == n / p + 1
    ensures n % p + 1 != p ==> (n + 1) % p == n % p + 1 && (n + 1) / p == n / p
  {
    if n % p + 1 == p {
      assert n + 1 == (n / p + 1) * p + 0 by {
        assert (n / p + 1) * p == (n / p) * p + p;
      }
      DivModUnique(n + 1, p, n / p + 1, 0);
    } else {
      DivModUnique(n + 1, p, n / p, n % p + 1);
    }
  }

  /** Moving an address to the end of its page makes it page aligned. */
  lemma NextPageAligned(a: nat, p: nat)
    requires 0 < p
    ensures (a + (p - a % p)) % p == 0
  {
    assert a + (p - a % p) == 0 + (a / p + 1) * p by {
      assert (a / p + 1) * p == (a / p) * p + p;
    }
    ShiftMod(0, a / p + 1, p);
  }

  /** n * p by repeated addition. Contracts that carry many such products use it so that the
      verifier meets a product only where TimesIs brings it in. */
  function Times(n: nat, p: nat): nat {
    if n == 0 then 0 else Times(n - 1, p) + p
  }

  lemma {:induction false} TimesIs(n: nat, p: nat)
    ensures Times(n, p) == n * p
  {
    if n > 0 {
      TimesIs(n - 1, p);
      Distribute(n - 1, 1, p);
    }
  }

  lemma {:induction false} TimesGrows(m: nat, n: nat, p: nat)
    requires m <= n
    ensures Times(m, p) <= Times(n, p) && (m < n ==> Times(m, p) + p <= Times(n, p))
    decreases n
  {
    if m < n {
      TimesGrows(m, n - 1, p);
    }
  }

  function Pow2(k: nat): (p: nat)
    ensures 1 <= p
  {
    if k == 0 then 1 else 2 * Pow2(k - 1)
  }

  lemma {:induction false} Pow2Split(a: nat, b: nat)
    ensures Pow2(a + b) == Pow2(a) * Pow2(b)
  {
    if a > 0 {
      Pow2Split(a - 1, b);
    }
  }

  lemma {:induction false} Pow2Grows(a: nat, b: nat)
    requires a <= b
    ensures Pow2(a) <= Pow2(b)
    decreases b
  {
    if a < b {
      Pow2Grows(a, b - 1);
    }
  }

  /** How many values n bytes can hold. */
  function Capacity(n: nat): nat {
    if n == 0 then 1 else 256 * Capacity(n - 1)
  }
}
