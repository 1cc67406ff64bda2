/** Facts about products, quotients and remainders that the solver needs to be told one at a time. */
module Arithmetic {
  const TWO64 := 0x1_0000_0000_0000_0000

  lemma MulAtLeast(k: int, d: int)
    requires k >= 1 && d >= 0
    ensures k * d >= d
  {
    assert k * d == (k - 1) * d + d;
    MulNonNegative(k - 1, d);
  }

  lemma {:induction false} MulNonNegative(k: int, d: int)
    requires k >= 0 && d >= 0
    ensures k * d >= 0
  {
  }

  lemma MulMonotone(a: int, b: int, d: int)
    requires a <= b && d >= 0
    ensures a * d <= b * d
  {
    assert b * d == a * d + (b - a) * d;
    MulNonNegative(b - a, d);
  }

  lemma DivMod(x: int, d: int)
    requires d > 0
    ensures x == (x / d) * d + x % d && 0 <= x % d < d
  {
  }

  /** Quotient and remainder are unique. */
  lemma DivModUnique(x: int, d: int, q: int, r: int)
    requires 0 <= r < d && x == q * d + r
    ensures x / d == q && x % d == r
  {
    var q', r' := x / d, x % d;
    DivMod(x, d);
    assert (q - q') * d == r' - r;
    if q > q' {
      MulAtLeast(q - q', d);
    } else if q < q' {
      assert (q' - q) * d == r - r';
      MulAtLeast(q' - q, d);
    }
  }

  lemma DivBound(x: int, d: int, q: int)
    requires d > 0 && 0 <= x < q * d
    ensures 0 <= x / d < q
  {
    DivMod(x, d);
    if x / d >= q {
      MulMonotone(q, x / d, d);
    } else if x / d < 0 {
      MulMonotone(x / d, -1, d);
    }
  }
}
