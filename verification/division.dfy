/** Floor division and remainder by a positive divisor. */
module Division {

  lemma MultipleIsAtLeast(k: int, n: int)
    requires 0 < k && 1 <= n
    ensures k * n >= k
  {}

  /** Division with remainder determines its quotient and remainder. */
  lemma QuotientIsUnique(a: int, k: int, q: int, r: int)
    requires 0 < k && 0 <= r < k && a == k * q + r
    ensures a / k == q && a % k == r
  {
    var p, s := a / k, a % k;
    assert a == k * p + s && 0 <= s < k;
    assert k * (p - q) == r - s && k * (q - p) == s - r;
    if p > q {
      MultipleIsAtLeast(k, p - q);
    } else if q > p {
      MultipleIsAtLeast(k, q - p);
    }
  }

  lemma QuotientIsNatural(a: nat, k: int)
    requires 0 < k
    ensures 0 <= a / k <= a
  {
    var q := a / k;
    assert a == k * q + a % k;
    if q < 0 {
      MultipleIsAtLeast(k, -q);
    } else if q > a {
      MultipleIsAtLeast(q, k);
    }
  }

  lemma NextQuotient(a: int, k: int)
    requires 0 < k
    ensures (a + 1) / k == a / k + (if (a + 1) % k == 0 then 1 else 0)
  {
    if a % k == k - 1 {
      assert a + 1 == k * (a / k) + k == k * (a / k + 1);
      QuotientIsUnique(a + 1, k, a / k + 1, 0);
    } else {
      QuotientIsUnique(a + 1, k, a / k, a % k + 1);
    }
  }

  /** Adding a multiple of the divisor moves the quotient and keeps the remainder. */
  lemma ShiftedQuotient(a: int, k: int, n: int)
    requires 0 < k
    ensures (a + k * n) / k == a / k + n
    ensures (a + k * n) % k == a % k
  {
    assert a + k * n == k * (a / k + n) + a % k;
    QuotientIsUnique(a + k * n, k, a / k + n, a % k);
  }

  lemma ReducedSum(x: int, y: int, k: int)
    requires 0 < k
    ensures (x % k + y) % k == (x + y) % k
  {
    ShiftedQuotient(x % k + y, k, x / k);
  }

  lemma ComplementQuotient(x: int, k: int)
    requires 0 < k
    ensures (-x - 1) / k == -(x / k) - 1
  {
    assert -x - 1 == k * (-(x / k) - 1) + (k - 1 - x % k);
    QuotientIsUnique(-x - 1, k, -(x / k) - 1, k - 1 - x % k);
  }
}
