// What the numbers that decide a split measure.
module SplitMeasures {
  import opened RealArithmetic
  import opened Geometry
  import opened BoxTree
  import opened TreeBounds
  import opened IndexLists
  import opened TreeBuild

  // ---- the side of one triangle

  // The splitting value is the coordinate of the triangle's point with equal weights for its corners.
  lemma SplittingIsCentroid(t: Triangle, axis: nat)
    requires axis < 3
    ensures SplittingValue(t, axis) == Component(At(t, 1.0 / 3.0, 1.0 / 3.0), axis)
    ensures Lowest(t, axis) <= SplittingValue(t, axis) <= Highest(t, axis)
  {
  }

  // So a triangle wholly above the middle of the box goes to the positive side, and one that nowhere
  // rises above it to the other.
  lemma WhollyOnOneSide(m: Mesh, b: Box, l: seq<nat>, axis: nat, k: nat, p: nat)
    requires ValidPrims(m, l) && axis < 3 && k <= |l| && Divided(m, b, l, axis, k) && p in l
    ensures p < |m.faces|
    ensures Lowest(m.Tri(p), axis) > Component(b.center, axis) ==> p in l[..k] && p !in l[k..]
    ensures Highest(m.Tri(p), axis) <= Component(b.center, axis) ==> p in l[k..] && p !in l[..k]
  {
    assert l == l[..k] + l[k..];
    SplittingIsCentroid(m.Tri(p), axis);
    hide SplittingValue, Lowest, Highest, Component;
  }

  // ---- the variance rule

  // Around another value the squares add up to more, by the square of the difference for each.
  lemma {:induction false} SpreadAround(m: Mesh, l: seq<nat>, axis: nat, c: real, d: real)
    requires ValidPrims(m, l) && axis < 3
    ensures Spread(m, l, axis, d) ==
            Spread(m, l, axis, c) + 2.0 * Mul(c - d, Total(m, l, axis) - Mul(|l| as real, c))
            + Mul(|l| as real, Sq(c - d))
    decreases |l|
  {
    if l != [] {
      var x := SplittingValue(m.Tri(l[|l| - 1]), axis);
      SpreadAround(m, l[..|l| - 1], axis, c, d);
      hide SplittingValue;
      OneMoreSquare(x, c, d, Total(m, l[..|l| - 1], axis), (|l| - 1) as real);
    }
  }

  lemma OneMoreSquare(x: real, c: real, d: real, total: real, n: real)
    ensures Sq(x - d) == Sq(x - c) + 2.0 * Mul(c - d, x - c) + Sq(c - d)
    ensures Mul(c - d, total + x - Mul(n + 1.0, c)) == Mul(c - d, total - Mul(n, c)) + Mul(c - d, x - c)
    ensures Mul(n + 1.0, Sq(c - d)) == Mul(n, Sq(c - d)) + Sq(c - d)
  {
  }

  // The mean is the value around which the squares add up to least.
  lemma MeanIsLeast(m: Mesh, l: seq<nat>, axis: nat, d: real)
    requires ValidPrims(m, l) && axis < 3 && l != []
    ensures var mean := Mean(m, l, axis);
            Spread(m, l, axis, d) == Spread(m, l, axis, mean) + Mul(|l| as real, Sq(mean - d))
  {
    var mean, n := Mean(m, l, axis), |l| as real;
    SpreadAround(m, l, axis, mean, d);
    Quotient(Total(m, l, axis), n);
    hide Total, Spread;
    assert Mul(mean - d, 0.0) == 0.0;
  }

  lemma Quotient(a: real, n: real)
    requires n != 0.0
    ensures Mul(n, a / n) == a
  {
  }

  // The squared differences of all pairs of splitting values.
  function PairSpread(m: Mesh, l: seq<nat>, k: seq<nat>, axis: nat): real
    requires ValidPrims(m, l) && ValidPrims(m, k) && axis < 3
    decreases |k|
  {
    if k == [] then 0.0
    else
      PairSpread(m, l, k[..|k| - 1], axis) + Spread(m, l, axis, SplittingValue(m.Tri(k[|k| - 1]), axis))
  }

  lemma {:induction false} PairsAroundMean(m: Mesh, l: seq<nat>, k: seq<nat>, axis: nat)
    requires ValidPrims(m, l) && ValidPrims(m, k) && axis < 3 && l != []
    ensures var mean := Mean(m, l, axis);
            PairSpread(m, l, k, axis) ==
            Mul(|k| as real, Spread(m, l, axis, mean)) + Mul(|l| as real, Spread(m, k, axis, mean))
    decreases |k|
  {
    var mean := Mean(m, l, axis);
    if k != [] {
      var x := SplittingValue(m.Tri(k[|k| - 1]), axis);
      PairsAroundMean(m, l, k[..|k| - 1], axis);
      MeanIsLeast(m, l, axis, x);
      hide SplittingValue, Mean;
      OnePairMore(|k| as real, |l| as real, Spread(m, l, axis, mean), Spread(m, k[..|k| - 1], axis, mean), x, mean);
    }
  }

  lemma OnePairMore(k: real, n: real, s: real, r: real, x: real, mean: real)
    ensures Mul(k, s) == Mul(k - 1.0, s) + s
    ensures Mul(n, r + Sq(x - mean)) == Mul(n, r) + Mul(n, Sq(mean - x))
  {
  }

  // The variance is the mean squared difference of two of the values, halved: it depends on nothing but
  // how far they lie apart.
  lemma VarianceByPairs(m: Mesh, l: seq<nat>, axis: nat)
    requires ValidPrims(m, l) && axis < 3 && |l| > 1
    ensures var n := |l| as real;
            2.0 * Mul(Mul(n, n - 1.0), Variance(m, l, axis)) == PairSpread(m, l, l, axis)
  {
    var n, mean := |l| as real, Mean(m, l, axis);
    PairsAroundMean(m, l, l, axis);
    var s := Spread(m, l, axis, mean);
    Quotient(s, n - 1.0);
    hide Spread, Mean, PairSpread;
    Regroup(n, n - 1.0, Variance(m, l, axis));
  }

  lemma Regroup(a: real, b: real, c: real)
    ensures Mul(Mul(a, b), c) == Mul(a, Mul(b, c))
  {
  }

  // ---- the arbitrary split

  // Without a useful axis the two sides differ by at most one primitive, and the positive one is not
  // the larger.
  lemma HalvesAreEven(rules: Rules, m: Mesh, b: Box, l: seq<nat>, axis: nat, k: nat)
    requires m.Valid() && axis < 3 && k <= |l| && Sides(rules, m, b, l, axis, false, k)
    ensures k <= |l| - k <= k + 1
  {
  }

  // ---- the balancing rule

  // One imbalance is less than another just when the sides differ less in size.
  lemma ImbalanceBySides(m: Mesh, b: Box, l: seq<nat>, axis: nat, other: nat)
    requires m.Valid() && axis < 3 && other < 3 && l != []
    ensures var n, x, y := |l| as real, AboveCount(m, b, l, axis) as real, AboveCount(m, b, l, other) as real;
            Imbalance(m, b, l, axis) <= Imbalance(m, b, l, other) <==>
            Abs(x - (n - x)) <= Abs(y - (n - y))
  {
    hide AboveCount, Sq, Abs;
    SkewInOrder(AboveCount(m, b, l, axis) as real, AboveCount(m, b, l, other) as real, |l| as real);
  }

  lemma SkewInOrder(x: real, y: real, n: real)
    requires n > 0.0
    ensures Sq(x / n - 0.5) <= Sq(y / n - 0.5) <==> Abs(x - (n - x)) <= Abs(y - (n - y))
  {
    hide Sq, Abs, Mul;
    HalfApart(x, n);
    HalfApart(y, n);
    SquaresInOrder(x / n - 0.5, y / n - 0.5);
    ScaledInOrder(x / n - 0.5, y / n - 0.5, 2.0 * n);
  }

  lemma HalfApart(x: real, n: real)
    requires n != 0.0
    ensures x - (n - x) == Mul(x / n - 0.5, 2.0 * n)
  {
  }

  lemma SquaresInOrder(a: real, b: real)
    ensures Sq(a) <= Sq(b) <==> Abs(a) <= Abs(b)
  {
    DifferenceOfSquares(a, b);
    if Abs(a) <= Abs(b) {
      ProductNonNegative(Abs(b) - Abs(a), Abs(b) + Abs(a));
    } else {
      ProductPositive(Abs(a) - Abs(b), Abs(b) + Abs(a));
    }
    hide Sq;
  }

  lemma DifferenceOfSquares(a: real, b: real)
    ensures (Abs(b) - Abs(a)) * (Abs(b) + Abs(a)) == Sq(b) - Sq(a)
    ensures (Abs(a) - Abs(b)) * (Abs(b) + Abs(a)) == Sq(a) - Sq(b)
  {
  }

  lemma ScaledInOrder(a: real, b: real, k: real)
    requires k > 0.0
    ensures Abs(Mul(a, k)) <= Abs(Mul(b, k)) <==> Abs(a) <= Abs(b)
  {
    hide Abs, Mul;
    AbsScaled(a, k);
    AbsScaled(b, k);
    MulInOrder(Abs(a), Abs(b), k);
  }

  lemma MulInOrder(x: real, y: real, k: real)
    requires k > 0.0
    ensures Mul(x, k) <= Mul(y, k) <==> x <= y
  {
    if x <= y {
      ProductMonotone(x, y, k);
    } else {
      MulPositive(x - y, k);
      assert Mul(x - y, k) == Mul(x, k) - Mul(y, k);
    }
  }

  lemma AbsScaled(a: real, k: real)
    requires k > 0.0
    ensures Abs(Mul(a, k)) == Mul(Abs(a), k)
  {
    OppositeProduct(a, k);
    if a < 0.0 {
      MulPositive(-a, k);
    } else {
      ProductNonNegative(a, k);
    }
  }

  lemma OppositeProduct(a: real, k: real)
    ensures Mul(-a, k) == -Mul(a, k)
  {
  }
}
