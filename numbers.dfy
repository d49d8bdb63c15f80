/** JavaScript's `Math.min`, `Math.max` and `Math.round`, on exact numbers. */
module Numbers {

  /** `Math.min(a, b)` on integers. */
  function Min(a: int, b: int): int
  {
    if a <= b then a else b
  }

  /** `Math.max(a, b)` on integers. */
  function Max(a: int, b: int): int
  {
    if a >= b then a else b
  }

  /** `Math.min(a, b)` on reals. */
  function MinReal(a: real, b: real): real
  {
    if a <= b then a else b
  }

  /** `Math.round(x)`: the nearest integer, halves rounded up (towards +infinity). */
  function Round(x: real): (n: int)
    ensures n as real <= x + 0.5 < n as real + 1.0
  {
    (x + 0.5).Floor
  }

  /** Facts about a quotient by a positive real. */
  lemma Quotient(a: real, b: real)
    requires b != 0.0
    ensures b > 0.0 ==> (a / b >= 1.0 <==> a >= b)
    ensures b > 0.0 && a >= 0.0 ==> a / b >= 0.0
  {
    if b > 0.0 {
      var q := a / b;
      assert a == q * b;
      if q >= 1.0 {
        assert a - b == (q - 1.0) * b;
        assert (q - 1.0) * b >= 0.0;
      } else {
        assert b - a == (1.0 - q) * b;
        assert (1.0 - q) * b > 0.0;
      }
    }
  }

  /** Dividing by a positive real keeps order. */
  lemma QuotientMonotone(a: real, b: real, c: real)
    requires c > 0.0 && a <= b
    ensures a / c <= b / c
  {
    Quotient(b - a, c);
    assert (b - a) / c == b / c - a / c;
  }
}
