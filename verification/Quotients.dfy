/** Division of reals by positive numbers. */
module Quotients {

  /** It undoes multiplication and keeps the order. */
  lemma Divide(a: real, b: real, n: real)
    requires n > 0.0
    ensures n * (a / n) == a
    ensures a / n <= b / n <==> a <= b
    ensures 0.0 <= a / n <==> 0.0 <= a
    ensures a / n <= 1.0 <==> a <= n
    ensures b / n <= 1.0 <==> b <= n
    ensures a / n == 1.0 <==> a == n
  {
    assert a / n - b / n == (a - b) / n;
  }

  /** A bound on a quotient is a bound on the dividend. */
  lemma QuotientBound(a: real, q: real, n: real)
    requires n > 0.0
    ensures a / n <= q <==> a <= q * n
    ensures q <= a / n <==> q * n <= a
  {
    assert a / n - q == (a - q * n) / n;
  }

  /** A larger divisor leaves less. */
  lemma DivideByMore(a: real, m: real, n: real)
    requires 0.0 <= a && 0.0 < m <= n
    ensures a / n <= a / m
    ensures a > 0.0 && m < n ==> a / n < a / m
  {
    assert a / m - a / n == a * (n - m) / (m * n);
  }
}
