/** Euclidean division facts with a variable divisor, which the solver does
    not find by itself. */
module DivMod {

  /** Division by k is determined by the quotient-remainder decomposition. */
  lemma QuotientUnique(a: int, k: int, q: int, r: int)
    requires k > 0 && 0 <= r < k && a == k * q + r
    ensures a / k == q && a % k == r
  {
    var q', r' := a / k, a % k;
    assert a == k * q' + r';
    if q' < q {
      ProductGrows(k, q', q);
    } else if q < q' {
      ProductGrows(k, q, q');
    }
  }

  /** Multiples of k below and above a gap of at least one factor are k apart. */
  lemma ProductGrows(k: int, m: int, n: int)
    requires k > 0 && m < n
    ensures k * n >= k * m + k
  {
    assert k * n - k * m == k * (n - m);
    var d := n - m;
    assert k * d >= k;
  }
}
