/**
 * Real multiplication behind named functions. The distance arithmetic of
 * the library (squares of coordinate differences, a projection parameter
 * times a segment length) is reasoned about through the small ring facts
 * below, one product at a time.
 */
module Arith {
  /** A product of two reals. */
  function Mul(a: real, b: real): real
  {
    a * b
  }

  /** A square, `a ** 2` in the source. */
  function Sq(a: real): real
  {
    a * a
  }

  lemma MulAdd(a: real, b: real, c: real)
    ensures Mul(a, b + c) == Mul(a, b) + Mul(a, c)
  {
  }

  lemma MulSub(a: real, b: real, c: real)
    ensures Mul(a - b, c) == Mul(a, c) - Mul(b, c)
  {
  }

  lemma MulOne(a: real)
    ensures Mul(1.0, a) == a
  {
  }

  lemma MulZero(a: real)
    ensures Mul(0.0, a) == 0.0
  {
  }

  lemma MulByZero(a: real)
    ensures Mul(a, 0.0) == 0.0
  {
  }

  /** Reordering a product of three factors. */
  lemma MulRotate(a: real, b: real, t: real)
    ensures Mul(a, Mul(b, t)) == Mul(t, Mul(a, b))
  {
  }

  lemma MulTwice(t: real, l: real)
    ensures Mul(t, Mul(t, l)) == Mul(Sq(t), l)
  {
  }

  lemma MulScaled(b: real, s: real)
    ensures Mul(Mul(b, s), b) == Mul(s, Sq(b))
  {
  }

  lemma MulDiv(s: real, l: real)
    requires l != 0.0
    ensures Mul(s, l) / l == s
  {
  }

  lemma DivMul(n: real, d: real)
    requires d != 0.0
    ensures Mul(n / d, d) == n
  {
  }

  lemma MulPositive(a: real, b: real)
    requires a > 0.0 && b > 0.0
    ensures Mul(a, b) > 0.0
  {
  }

  lemma MulNonNegative(a: real, b: real)
    requires a >= 0.0 && b >= 0.0
    ensures Mul(a, b) >= 0.0
  {
  }

  lemma MulNegative(a: real, b: real)
    requires a < 0.0 && b > 0.0
    ensures Mul(a, b) < 0.0
  {
  }

  lemma SqNonNegative(a: real)
    ensures Sq(a) >= 0.0
  {
    if a >= 0.0 {
      MulNonNegative(a, a);
    } else {
      MulNonNegative(-a, -a);
    }
  }

  lemma SqPositive(a: real)
    requires a != 0.0
    ensures Sq(a) > 0.0
  {
    if a > 0.0 {
      MulPositive(a, a);
    } else {
      MulPositive(-a, -a);
    }
  }

  lemma SqMonotone(a: real, b: real)
    requires 0.0 <= a <= b
    ensures Sq(a) <= Sq(b)
  {
    SqDifference(a, b);
    MulNonNegative(b - a, b + a);
  }

  lemma SqDifference(a: real, b: real)
    ensures Sq(b) - Sq(a) == Mul(b - a, b + a)
  {
  }

  lemma SqDiff(a: real, b: real)
    ensures Sq(a - b) == Sq(a) - 2.0 * Mul(a, b) + Sq(b)
  {
  }

  lemma SqSwap(a: real, b: real)
    ensures Sq(a - b) == Sq(b - a)
  {
  }

  lemma SqOfMul(b: real, t: real)
    ensures Sq(Mul(b, t)) == Mul(Sq(t), Sq(b))
  {
  }

  lemma OneMinusSq(t: real, l: real)
    ensures Mul(Sq(1.0 - t), l) == l - 2.0 * Mul(t, l) + Mul(Sq(t), l)
  {
  }
}
