/** Integer facts used by the calendar and colour arithmetic. */
module Arith {

  lemma MulAtLeast(k: int, d: int)
    requires k > 0 && d >= 1
    ensures k * d >= k
  {
  }

  /** Quotient and remainder are determined by a == k * q + r, 0 <= r < k. */
  lemma DivModUnique(a: int, k: int, q: int, r: int)
    requires 0 <= r < k && a == k * q + r
    ensures a / k == q && a % k == r
  {
    var d := q - a / k;
    assert k * d == a % k - r;
    if d >= 1 {
      MulAtLeast(k, d);
    } else if d <= -1 {
      MulAtLeast(k, -d);
    }
  }
}
