/** The few facts about products and quotients the rest needs, each on its own
    so that no larger proof has to find it. */
module Arithmetic {

  lemma MulOrder(a: int, b: int, w: int)
    requires a <= b && 0 <= w
    ensures a * w <= b * w
  {
  }

  lemma Distributes(x: int, p: int)
    ensures (x + 1) * p == x * p + p
  {
  }

  lemma MulCancel(a: int, b: int, w: int)
    requires 0 < w && a * w < b * w
    ensures a < b
  {
    if b <= a {
      MulOrder(b, a, w);
    }
  }

  lemma MulCancelEqual(a: int, b: int, w: int)
    requires 0 < w && a * w == b * w
    ensures a == b
  {
    if a < b {
      MulOrder(a + 1, b, w);
    } else if b < a {
      MulOrder(b + 1, a, w);
    }
  }

  lemma DivMod(n: int, d: int)
    requires d > 0
    ensures n == (n / d) * d + n % d
  {
  }

  lemma DivBounds(n: int, d: int)
    requires 0 < d
    ensures (n / d) * d <= n < (n / d + 1) * d
  {
    assert n == d * (n / d) + n % d;
  }

  lemma DivUnique(n: int, d: int, q: int)
    requires 0 < d && q * d <= n < (q + 1) * d
    ensures n / d == q
  {
    DivBounds(n, d);
    MulCancel(q, n / d + 1, d);
    MulCancel(n / d, q + 1, d);
  }

  lemma DivAtLeast(n: int, d: int, k: int)
    requires 0 < d && k * d <= n
    ensures k <= n / d
  {
    DivBounds(n, d);
    MulCancel(k, n / d + 1, d);
  }

  lemma DivPlusOne(n: int, d: int)
    requires 0 < d
    ensures (n + d) / d == n / d + 1
  {
    DivBounds(n, d);
    var q := n / d;
    assert (q + 1) * d == q * d + d && (q + 2) * d == q * d + 2 * d;
    DivUnique(n + d, d, q + 1);
  }

  lemma DivDiv(n: int, d: int, e: int)
    requires d > 0 && e > 0
    ensures d * e > 0 && n / d / e == n / (d * e)
  {
    MulOrder(1, d, e);
    var q := n / (d * e);
    DivBounds(n, d * e);
    assert q * (d * e) == (q * e) * d && (q + 1) * (d * e) == ((q + 1) * e) * d;
    DivAtLeast(n, d, q * e);
    DivBounds(n, d);
    MulCancel(n / d, (q + 1) * e, d);
    DivUnique(n / d, e, q);
  }

  lemma SmallMod(n: nat, d: nat)
    requires n < d
    ensures n % d == n
  {
    DivUnique(n, d, 0);
    assert n == d * (n / d) + n % d;
  }
}
