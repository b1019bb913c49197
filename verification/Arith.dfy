/** Facts about products and quotients of variables. */
module Arith {

  lemma MulNonNegative(a: int, b: int)
    requires 0 <= a && 0 <= b
    ensures 0 <= a * b
  {
  }

  lemma MulMonotone(a: int, b: int, c: nat)
    requires a <= b
    ensures a * c <= b * c
  {
    assert (b - a) * c >= 0;
  }

  lemma ModUnique(x: int, q: int, n: nat, m: int)
    requires x == q * n + m && 0 <= m < n
    ensures x % n == m
  {
    QuotientUnique(q, m, x / n, x % n, n);
  }

  lemma QuotientUnique(q: int, m: int, q': int, m': int, n: nat)
    requires 0 <= m < n && 0 <= m' < n && q * n + m == q' * n + m'
    ensures q == q' && m == m'
  {
    assert (q + 1) * n == q * n + n && (q' + 1) * n == q' * n + n;
    if q != q' {
      MulMonotone(if q < q' then q + 1 else q' + 1, if q < q' then q' else q, n);
    }
  }

  lemma QuotientNonNegative(x: int, n: nat)
    requires 0 <= x && 0 < n
    ensures 0 <= x / n
  {
  }

  lemma QuotientBounds(x: int, n: nat)
    requires 0 < n
    ensures x / n * n <= x < x / n * n + n
  {
  }

  lemma CancelFactor(a: int, b: int, n: nat)
    requires a * n < b * n + n
    ensures a <= b
  {
    if b + 1 <= a {
      MulMonotone(b + 1, a, n);
    }
  }
}
