/** Facts about integer multiplication and Euclidean division that the
    calendar, the travel estimates and the slot count share. */
module Arith {

  /** Euclidean division by a positive `d`. */
  lemma QuotientRemainder(n: int, d: int)
    requires d > 0
    ensures n == (n / d) * d + n % d && 0 <= n % d < d
    ensures n >= 0 ==> n / d >= 0
  {
  }

  /** A positive multiple of `d` is at least `d`. */
  lemma {:induction false} MulAtLeast(k: int, d: int)
    requires k >= 1 && d > 0
    ensures k * d >= d
    decreases k
  {
    if k > 1 {
      MulAtLeast(k - 1, d);
      assert k * d == (k - 1) * d + d;
    }
  }

  /** Multiplying by a positive `d` keeps strict order with a gap of `d`. */
  lemma MulStep(x: int, y: int, d: int)
    requires x < y && d > 0
    ensures x * d + d <= y * d
  {
    MulAtLeast(y - x, d);
    assert y * d == x * d + (y - x) * d;
  }

  /** Quotient and remainder are the unique ones. */
  lemma DivOf(a: int, k: int, q: int, r: int)
    requires k > 0 && 0 <= r < k && a == q * k + r
    ensures a / k == q && a % k == r
  {
    var q' := a / k;
    var r' := a % k;
    assert a == q' * k + r';
    assert (q - q') * k == r' - r;
    if q' < q {
      MulAtLeast(q - q', k);
    } else if q < q' {
      MulAtLeast(q' - q, k);
    }
  }
}
