/** Sign facts about products of reals that the solver does not find alone. */
module RealArith {

  lemma MulNonNeg(x: real, y: real)
    requires x >= 0.0 && y >= 0.0
    ensures x * y >= 0.0
  {
  }

  lemma MulNegPos(y: real, d: real)
    requires d > 0.0 && y < 0.0
    ensures y * d < 0.0
  {
  }

  /** The product of two numbers in [0, 1] is in [0, the first]. */
  lemma MulBetween(a: real, b: real)
    requires 0.0 <= a && 0.0 <= b <= 1.0
    ensures 0.0 <= a * b <= a
  {
    assert a * b + a * (1.0 - b) == a;
    MulNonNeg(a, 1.0 - b);
  }
}
