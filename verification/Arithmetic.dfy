/** Powers of two, and facts about division with remainder that the solver does not find by itself. */
module Arithmetic {

  function Power2(n: nat): (p: nat)
    ensures p > 0
  {
    if n == 0 then 1 else 2 * Power2(n - 1)
  }

  /** Quotient and remainder are determined by the equation they satisfy. */
  lemma {:induction false} QuotientUnique(n: int, d: int, q: int, r: int)
    requires d > 0 && 0 <= r < d && n == d * q + r
    ensures n / d == q && n % d == r
  {
    var e := n / d - q;
    assert d * e == r - n % d;
    assert e <= 0 || d * e >= d;
    assert e >= 0 || d * e <= -d;
  }

  lemma {:induction false} QuotientStep(n: int, d: int)
    requires d > 1
    ensures n / d == (n - 1) / d + (if n % d == 0 then 1 else 0)
  {
    var q, r := (n - 1) / d, (n - 1) % d;
    if r == d - 1 {
      assert n == d * (q + 1);
      QuotientUnique(n, d, q + 1, 0);
    } else {
      QuotientUnique(n, d, q, r + 1);
    }
  }

  lemma {:induction false} RemainderSmaller(x: nat, m: nat)
    requires m > 0
    ensures x % m <= x
  {
    assert x == m * (x / m) + x % m;
  }

  lemma {:induction false} RemainderOfSmall(x: nat, m: nat)
    requires x < m
    ensures x / m == 0 && x % m == x
  {
    QuotientUnique(x, m, 0, x);
  }

  lemma {:induction false} RemainderPeriod(x: nat, m: nat)
    requires 0 < m <= x
    ensures (x - m) % m == x % m
  {
    assert x - m == m * (x / m - 1) + x % m;
    QuotientUnique(x - m, m, x / m - 1, x % m);
  }

  lemma {:induction false} RemainderOfDouble(x: nat, p: nat)
    requires p > 0
    ensures x % (2 * p) == 2 * (x / 2 % p) + x % 2
  {
    var q, r := x / 2 / p, x / 2 % p;
    assert x / 2 == p * q + r;
    assert x == 2 * p * q + (2 * r + x % 2);
    QuotientUnique(x, 2 * p, q, 2 * r + x % 2);
  }
}
