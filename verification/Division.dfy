/** Quotients and remainders, for the page arithmetic of two programs. */
module Division {

  lemma {:induction false} Below(a: int, b: int, d: int)
    requires a < b && d > 0
    ensures a * d + d <= b * d
    decreases b - a
  {
    assert (a + 1) * d == a * d + d;
    if a + 1 < b {
      Below(a + 1, b, d);
    }
  }

  /** Quotient and remainder are determined by their defining equation. */
  lemma Divided(x: int, q: int, r: int, d: int)
    requires d > 0 && x == q * d + r && 0 <= r < d
    ensures x / d == q && x % d == r
  {
    var q', r' := x / d, x % d;
    assert x == q' * d + r';
    if q' < q {
      Below(q', q, d);
    } else if q < q' {
      Below(q, q', d);
    }
  }
}
