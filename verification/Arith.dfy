/** Division facts for symbolic divisors, and powers of two. */
module Arith {
  lemma DivExact(d: nat, q: nat)
    requires d > 0
    ensures (d * q) % d == 0 && (d * q) / d == q
  {
    DivUnique(d * q, d, q, 0);
  }

  lemma MulLess(d: nat, a: int, b: int)
    requires a < b
    ensures d * a + d <= d * b
  {
    var t := b - a - 1;
    assert b == a + 1 + t;
    assert d * b == d * a + d + d * t by { MulSpread(d, a, t); }
    MulNonNeg(d, t);
  }

  lemma MulSpread(d: nat, a: int, t: int)
    ensures d * (a + 1 + t) == d * a + d + d * t
  {}

  lemma MulNonNeg(d: nat, t: nat)
    ensures d * t >= 0
  {}

  lemma SplitUnique(d: nat, q: int, r: int, e: int, m: int)
    requires 0 <= r < d && 0 <= m < d && d * q + r == d * e + m
    ensures q == e && r == m
  {
    if q < e {
      MulLess(d, q, e);
    } else if e < q {
      MulLess(d, e, q);
    }
  }

  /** Quotient and remainder are determined by n == d q + r. */
  lemma DivUnique(n: nat, d: nat, q: nat, r: nat)
    requires d > 0 && r < d && n == d * q + r
    ensures n / d == q && n % d == r
  {
    var e, m := n / d, n % d;
    assert n == d * e + m;
    SplitUnique(d, q, r, e, m);
  }

  function Min(a: nat, b: nat): nat {
    if a < b then a else b
  }

  lemma MulMonotone(a: nat, b: nat, c: nat)
    requires a <= b
    ensures a * c <= b * c
  {
    assert b * c == a * c + (b - a) * c;
  }

  function Pow2(n: nat): (p: nat)
    ensures p > 0
  {
    if n == 0 then 1 else 2 * Pow2(n - 1)
  }

  lemma {:induction false} Pow2Add(m: nat, n: nat)
    ensures Pow2(m + n) == Pow2(m) * Pow2(n)
  {
    if m == 0 {
    } else {
      Pow2Add(m - 1, n);
      assert 2 * (Pow2(m - 1) * Pow2(n)) == (2 * Pow2(m - 1)) * Pow2(n);
    }
  }

  lemma {:induction false} Pow2Order(s: nat, m: nat)
    ensures Pow2(s) <= Pow2(m) <==> s <= m
  {
    if s == 0 || m == 0 {
    } else {
      Pow2Order(s - 1, m - 1);
    }
  }
}
