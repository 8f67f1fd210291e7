/** Arithmetic facts shared by the view and the value-sequence models. Each is
    stated as an implication so that callers can use it unconditionally. */
module Arith {

  /** Multiplication by a non-negative factor is monotone. */
  lemma MulMonotone(a: int, b: int, d: int)
    requires a <= b && d >= 0
    ensures a * d <= b * d
  {
    assert b * d - a * d == (b - a) * d;
  }

  /** A strictly larger factor adds at least one more multiple of `d`. */
  lemma MulStep(a: int, b: int, d: int)
    requires d >= 0
    ensures a < b ==> a * d + d <= b * d
  {
    if a < b {
      MulMonotone(a + 1, b, d);
      assert (a + 1) * d == a * d + d;
    }
  }

  /** Products of non-negative factors are monotone in both factors. */
  lemma MulBoth(a: int, b: int, c: int, d: int)
    requires a >= 0 && c >= 0
    ensures a <= b && c <= d ==> a * c <= b * d
  {
    if a <= b && c <= d {
      MulMonotone(a, b, c);
      MulMonotone(c, d, b);
    }
  }

  /** A multiple of `b` divides exactly. */
  lemma DivExact(a: int, b: int)
    requires b > 0
    ensures (a * b) % b == 0 && (a * b) / b == a
  {
    var q := (a * b) / b;
    var r := (a * b) % b;
    assert a * b == q * b + r && 0 <= r < b;
    assert (a - q) * b == r;
    MulStep(0, a - q, b);
    MulStep(a - q, 0, b);
  }
}
