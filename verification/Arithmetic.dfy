/**
 Products and quotients, for the bounds on messages and timer events.
 */
module Arithmetic {
  lemma OneMore(k: int, n: int)
    ensures (k + 1) * n == k * n + n
  {
  }

  lemma Product(a: int, b: int, n: nat)
    requires a <= b
    ensures a * n <= b * n
  {
  }

  lemma SmallerFactor(a: int, b: int, n: nat)
    requires a * n < b * n
    ensures a < b
  {
    if b <= a {
      Product(b, a, n);
    }
  }

  lemma AtMost(k: nat, n: nat, t: nat)
    requires n > 0 && k * n <= t
    ensures k <= t / n
  {
    OneMore(t / n, n);
    assert t == (t / n) * n + t % n;
    SmallerFactor(k, t / n + 1, n);
  }

  lemma NextQuotient(n: int, d: int)
    requires n > 0 && d > 0
    ensures n / d == (n - 1) / d + if n % d == 0 then 1 else 0
  {
    var q, r := (n - 1) / d, (n - 1) % d;
    assert n - 1 == d * q + r;
    if r + 1 == d {
      QuotientIs(n, d, q + 1, 0);
    } else {
      QuotientIs(n, d, q, r + 1);
    }
  }

  lemma QuotientIs(n: int, d: int, q: int, r: int)
    requires d > 0 && n == d * q + r && 0 <= r < d
    ensures n / d == q && n % d == r
  {
    var q', r' := n / d, n % d;
    assert d * q + r == d * q' + r';
    assert d * (q - q') == r' - r;
    assert q - q' >= 1 ==> d * (q - q') >= d;
    assert q' - q >= 1 ==> d * (q' - q) >= d;
  }
}
