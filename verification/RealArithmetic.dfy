// Facts about products of reals that the solver is better told than left to find.
module RealArithmetic {

  lemma ProductNonNegative(a: real, b: real)
    requires a >= 0.0 && b >= 0.0
    ensures a * b >= 0.0
  {
  }

  lemma ProductPositive(a: real, b: real)
    requires a > 0.0 && b > 0.0
    ensures a * b > 0.0
  {
  }

  lemma ProductMonotone(a: real, b: real, k: real)
    requires a <= b && k >= 0.0
    ensures a * k <= b * k
  {
    ProductNonNegative(b - a, k);
    assert (b - a) * k == b * k - a * k;
  }

  lemma SquareNonNegative(a: real)
    ensures a * a >= 0.0
  {
    if a >= 0.0 {
      ProductNonNegative(a, a);
    } else {
      ProductNonNegative(-a, -a);
    }
  }

  lemma ZeroProduct(a: real, b: real)
    requires a * b == 0.0 && b != 0.0
    ensures a == 0.0
  {
    if a > 0.0 {
      if b > 0.0 { ProductPositive(a, b); } else { ProductPositive(a, -b); }
    }
    if a < 0.0 {
      if b > 0.0 { ProductPositive(-a, b); } else { ProductPositive(-a, -b); }
    }
  }

  // Products and squares under a name, so that their sign stays a fact about one term.
  function Mul(a: real, b: real): real { a * b }

  function Sq(a: real): real { Mul(a, a) }

  lemma MulPositive(a: real, b: real)
    requires a > 0.0 && b > 0.0
    ensures Mul(a, b) > 0.0
  {
  }

  lemma SquarePositive(a: real)
    ensures Sq(a) >= 0.0
    ensures a != 0.0 ==> Sq(a) > 0.0
    ensures a == 0.0 ==> Sq(a) == 0.0
  {
    if a > 0.0 {
      MulPositive(a, a);
    } else if a < 0.0 {
      MulPositive(-a, -a);
      assert Mul(-a, -a) == Mul(a, a);
    }
  }

  // A convex combination stays above what its three terms stay above.
  lemma ConvexAbove(lo: real, a: real, b: real, c: real, u: real, v: real)
    requires lo <= a && lo <= b && lo <= c
    requires u >= 0.0 && v >= 0.0 && u + v <= 1.0
    ensures lo <= a + (b - a) * u + (c - a) * v
  {
    ProductNonNegative(a - lo, 1.0 - u - v);
    ProductNonNegative(b - lo, u);
    ProductNonNegative(c - lo, v);
    assert (a - lo) * (1.0 - u - v) + (b - lo) * u + (c - lo) * v == a + (b - a) * u + (c - a) * v - lo;
  }

  lemma ConvexBelow(hi: real, a: real, b: real, c: real, u: real, v: real)
    requires a <= hi && b <= hi && c <= hi
    requires u >= 0.0 && v >= 0.0 && u + v <= 1.0
    ensures a + (b - a) * u + (c - a) * v <= hi
  {
    ProductNonNegative(hi - a, 1.0 - u - v);
    ProductNonNegative(hi - b, u);
    ProductNonNegative(hi - c, v);
    assert (hi - a) * (1.0 - u - v) + (hi - b) * u + (hi - c) * v == hi - (a + (b - a) * u + (c - a) * v);
  }
}
