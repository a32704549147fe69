/** Integer division as the unique quotient and remainder. */
module Division {

  lemma MulAtLeast(m: int, k: int)
    requires m > 0 && k >= 1
    ensures m * k >= m
  {
  }

  lemma DifferenceOfMultiples(m: int, q1: int, q2: int, r1: int, r2: int)
    requires m * q1 + r1 == m * q2 + r2
    requires 0 <= r1 < m && 0 <= r2 < m
    ensures q1 == q2 && r1 == r2
  {
    assert m * (q1 - q2) == r2 - r1;
    assert m * (q2 - q1) == r1 - r2;
    if q1 > q2 {
      MulAtLeast(m, q1 - q2);
    } else if q2 > q1 {
      MulAtLeast(m, q2 - q1);
    }
  }

  lemma DivModUnique(n: int, m: int, q: int, r: int)
    requires m > 0 && n == m * q + r && 0 <= r < m
    ensures n % m == r && n / m == q
  {
    var q', r' := n / m, n % m;
    assert n == m * q' + r';
    DifferenceOfMultiples(m, q, q', r, r');
  }

  /** Counting up by one, the quotient steps at the multiples of `m`. */
  lemma QuotientStep(n: int, m: int)
    requires m > 1
    ensures n / m == (n - 1) / m + if n % m == 0 then 1 else 0
  {
    var q, r := (n - 1) / m, (n - 1) % m;
    assert n - 1 == m * q + r;
    if r == m - 1 {
      DivModUnique(n, m, q + 1, 0);
    } else {
      DivModUnique(n, m, q, r + 1);
    }
  }

  lemma QuotientAtMost(n: nat, k: nat)
    requires k > 0
    ensures n / k <= n
  {
    var q := n / k;
    assert n == k * q + n % k;
    if q > 0 {
      MulAtLeast(q, k);
    }
  }
}
