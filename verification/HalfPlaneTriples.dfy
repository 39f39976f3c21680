// When three half-planes have a common point: unless a combination of two of them, or the one
// combination of all three, rules it out.
module HalfPlaneTriples {
  import opened RealArithmetic
  import opened HalfPlanes

  // Nonnegative weights under which the two normals cancel.
  predicate Cancel2(h: HalfPlane, k: HalfPlane, x: real, y: real) {
    x >= 0.0 && y >= 0.0 && x * h.a + y * k.a == 0.0 && x * h.b + y * k.b == 0.0
  }

  ghost predicate PairOk(h: HalfPlane, k: HalfPlane) {
    forall x: real, y: real :: Cancel2(h, k, x, y) ==> x * h.c + y * k.c >= 0.0
  }

  function Det(h: HalfPlane, k: HalfPlane): real { h.a * k.b - k.a * h.b }

  // The weights under which three normals cancel, and what the offsets then add up to.
  function Rest(h: HalfPlane, k: HalfPlane, l: HalfPlane): real {
    Det(k, l) * h.c + Det(l, h) * k.c + Det(h, k) * l.c
  }

  predicate TripleOk(h: HalfPlane, k: HalfPlane, l: HalfPlane) {
    && (Det(k, l) >= 0.0 && Det(l, h) >= 0.0 && Det(h, k) >= 0.0 ==> Rest(h, k, l) >= 0.0)
    && (Det(k, l) <= 0.0 && Det(l, h) <= 0.0 && Det(h, k) <= 0.0 ==> Rest(h, k, l) <= 0.0)
  }

  ghost predicate Compatible(h: HalfPlane, k: HalfPlane, l: HalfPlane) {
    PairOk(h, k) && PairOk(k, l) && PairOk(l, h) && TripleOk(h, k, l)
  }

  lemma TripleTurns(h: HalfPlane, k: HalfPlane, l: HalfPlane)
    requires TripleOk(h, k, l)
    ensures TripleOk(k, l, h)
  {
  }

  lemma MeetTurns(h: HalfPlane, k: HalfPlane, l: HalfPlane)
    requires Meet(h, k, l)
    ensures Meet(k, l, h)
  {
    hide HalfPlane.At;
    var x: Spot :| h.At(x) >= 0.0 && k.At(x) >= 0.0 && l.At(x) >= 0.0;
    assert k.At(x) >= 0.0 && l.At(x) >= 0.0 && h.At(x) >= 0.0;
  }

  // ---- two crossing boundary lines

  // The point where two half-planes have given values.
  lemma Crossing(h: HalfPlane, k: HalfPlane, s: real, t: real) returns (x: Spot)
    requires Det(h, k) != 0.0
    ensures h.At(x) == s && k.At(x) == t
  {
    var d := Det(h, k);
    var inv := 1.0 / d;
    assert inv * d == 1.0;
    x := Spot(((s - h.c) * k.b - (t - k.c) * h.b) * inv, (h.a * (t - k.c) - k.a * (s - h.c)) * inv);
    CrossingValue(h.a, h.b, k.a, k.b, s - h.c, t - k.c, d, inv);
  }

  lemma CrossingValue(a: real, b: real, a': real, b': real, s: real, t: real, d: real, inv: real)
    requires d == a * b' - a' * b && inv * d == 1.0
    ensures a * ((s * b' - t * b) * inv) + b * ((a * t - a' * s) * inv) == s
    ensures a' * ((s * b' - t * b) * inv) + b' * ((a * t - a' * s) * inv) == t
  {
    assert a * (s * b' - t * b) + b * (a * t - a' * s) == s * d;
    assert a' * (s * b' - t * b) + b' * (a * t - a' * s) == t * d;
    Rescale(a, s * b' - t * b, b, a * t - a' * s, s, d, inv);
    Rescale(a', s * b' - t * b, b', a * t - a' * s, t, d, inv);
  }

  lemma Rescale(a: real, x: real, b: real, y: real, s: real, d: real, inv: real)
    requires a * x + b * y == s * d && inv * d == 1.0
    ensures a * (x * inv) + b * (y * inv) == s
  {
    assert a * (x * inv) + b * (y * inv) == (a * x + b * y) * inv;
    assert (s * d) * inv == s * (inv * d);
  }

  lemma RestAt(h: HalfPlane, k: HalfPlane, l: HalfPlane, x: Spot)
    ensures Det(k, l) * h.At(x) + Det(l, h) * k.At(x) + Det(h, k) * l.At(x) == Rest(h, k, l)
  {
  }

  // With s and t as the values of the first two, the third is what is left of the rest.
  lemma ThirdValue(d: real, d1: real, d2: real, s: real, t: real, z: real, rest: real)
    requires d1 * s + d2 * t + d * z == rest
    requires (d > 0.0 && rest - d1 * s - d2 * t >= 0.0) || (d < 0.0 && rest - d1 * s - d2 * t <= 0.0)
    ensures z >= 0.0
  {
    if z < 0.0 {
      if d > 0.0 { ProductPositive(d, -z); } else { ProductPositive(-d, -z); }
    }
  }

  lemma CrossingMeets(h: HalfPlane, k: HalfPlane, l: HalfPlane)
    requires Det(h, k) != 0.0 && TripleOk(h, k, l)
    ensures Meet(h, k, l)
  {
    var s, t := Slack(Det(h, k), Det(k, l), Det(l, h), Rest(h, k, l));
    var x := Crossing(h, k, s, t);
    RestAt(h, k, l, x);
    hide HalfPlane.At, Det, Rest;
    ThirdValue(Det(h, k), Det(k, l), Det(l, h), h.At(x), k.At(x), l.At(x), Rest(h, k, l));
    assert h.At(x) >= 0.0 && k.At(x) >= 0.0 && l.At(x) >= 0.0;
  }

  // How far inside the first two half-planes to go.
  lemma Slack(d: real, d1: real, d2: real, rest: real) returns (s: real, t: real)
    requires d != 0.0
    requires d1 >= 0.0 && d2 >= 0.0 && d >= 0.0 ==> rest >= 0.0
    requires d1 <= 0.0 && d2 <= 0.0 && d <= 0.0 ==> rest <= 0.0
    ensures s >= 0.0 && t >= 0.0
    ensures (d > 0.0 && rest - d1 * s - d2 * t >= 0.0) || (d < 0.0 && rest - d1 * s - d2 * t <= 0.0)
  {
    if (d > 0.0 && rest >= 0.0) || (d < 0.0 && rest <= 0.0) {
      s, t := 0.0, 0.0;
    } else if (d > 0.0 && d1 < 0.0) || (d < 0.0 && d1 > 0.0) {
      s, t := rest / d1, 0.0;
      QuotientSign(rest, d1);
      assert d1 * s == rest;
    } else {
      s, t := 0.0, rest / d2;
      QuotientSign(rest, d2);
      assert d2 * t == rest;
    }
  }

  lemma QuotientSign(n: real, d: real)
    requires (n < 0.0 && d < 0.0) || (n > 0.0 && d > 0.0)
    ensures n / d >= 0.0
  {
    var q := n / d;
    assert q * d == n;
    if q < 0.0 {
      if d > 0.0 { ProductPositive(-q, d); } else { ProductPositive(-q, -d); }
    }
  }

  // ---- parallel boundary lines: one coordinate decides

  // The slope of a half-plane along a direction.
  function Slope(h: HalfPlane, a: real, b: real): real { h.a * a + h.b * b }

  lemma SlopesCancel(h: HalfPlane, k: HalfPlane, a: real, b: real)
    requires Det(h, k) == 0.0
    ensures -Slope(k, a, b) * h.a + Slope(h, a, b) * k.a == 0.0
    ensures -Slope(k, a, b) * h.b + Slope(h, a, b) * k.b == 0.0
  {
    SlopeTerms(h.a, h.b, k.a, k.b, a, b);
    ZeroTimes(Det(h, k), b);
    ZeroTimes(Det(h, k), a);
  }

  lemma ZeroTimes(z: real, a: real)
    requires z == 0.0
    ensures z * a == 0.0
  {
  }

  lemma SlopeTerms(a: real, b: real, a': real, b': real, x: real, y: real)
    ensures -(a' * x + b' * y) * a + (a * x + b * y) * a' == -((a * b' - a' * b) * y)
    ensures -(a' * x + b' * y) * b + (a * x + b * y) * b' == (a * b' - a' * b) * x
  {
  }

  // A value c + d y of one coordinate y, and how far an increasing one starts before a decreasing
  // one ends.
  function Value(c: real, d: real, y: real): real { c + d * y }

  function Gap(c: real, d: real, c': real, d': real): real { d * c' - d' * c }

  // On a line in direction (a, b), an increasing and a decreasing half-plane overlap.
  lemma OppositeSlopes(h: HalfPlane, k: HalfPlane, a: real, b: real)
    requires Det(h, k) == 0.0 && PairOk(h, k)
    requires Slope(h, a, b) > 0.0 && Slope(k, a, b) < 0.0
    ensures Gap(h.c, Slope(h, a, b), k.c, Slope(k, a, b)) >= 0.0
  {
    SlopesCancel(h, k, a, b);
    var x, y := -Slope(k, a, b), Slope(h, a, b);
    hide Slope, Det;
    assert Cancel2(h, k, x, y);
  }

  lemma NoSlope(h: HalfPlane, k: HalfPlane)
    requires Det(h, k) == 0.0 && Slope(h, k.a, k.b) == 0.0 && (k.a != 0.0 || k.b != 0.0) && PairOk(h, k)
    ensures h.c >= 0.0
  {
    ZeroNormal(h.a, h.b, k.a, k.b);
    UnitCancels(h, k);
  }

  lemma UnitCancels(h: HalfPlane, k: HalfPlane)
    requires h.a == 0.0 && h.b == 0.0 && PairOk(h, k)
    ensures h.c >= 0.0
  {
    assert Cancel2(h, k, 1.0, 0.0);
  }

  lemma ZeroNormal(x: real, y: real, a: real, b: real)
    requires x * b - a * y == 0.0 && x * a + y * b == 0.0 && (a != 0.0 || b != 0.0)
    ensures x == 0.0 && y == 0.0
  {
    NormalIdentity(x, y, a, b);
    ZeroTimes(x * a + y * b, a);
    ZeroTimes(x * a + y * b, b);
    ZeroTimes(x * b - a * y, a);
    ZeroTimes(x * b - a * y, b);
    NormPositive(a, b);
    hide Norm;
    ZeroProduct(x, Norm(a, b));
    ZeroProduct(y, Norm(a, b));
  }

  function Norm(a: real, b: real): real { Sq(a) + Sq(b) }

  lemma NormalIdentity(x: real, y: real, a: real, b: real)
    ensures x * Norm(a, b) == (x * a + y * b) * a + (x * b - a * y) * b
    ensures y * Norm(a, b) == (x * a + y * b) * b - (x * b - a * y) * a
  {
  }

  lemma NormPositive(a: real, b: real)
    requires a != 0.0 || b != 0.0
    ensures Norm(a, b) > 0.0
  {
    hide Sq;
    SquarePositive(a);
    SquarePositive(b);
  }

  lemma OwnSlope(h: HalfPlane)
    ensures Slope(h, h.a, h.b) == Norm(h.a, h.b)
  {
  }

  predicate Overlaps(c: real, d: real, c': real, d': real) { d > 0.0 && d' < 0.0 ==> Gap(c, d, c', d') >= 0.0 }

  // A coordinate at which three values are not negative, the first one increasing.
  lemma PickCoordinate(c1: real, d1: real, c2: real, d2: real, c3: real, d3: real) returns (y: real)
    requires d1 > 0.0
    requires d2 == 0.0 ==> c2 >= 0.0
    requires d3 == 0.0 ==> c3 >= 0.0
    requires Overlaps(c1, d1, c2, d2) && Overlaps(c1, d1, c3, d3) && Overlaps(c2, d2, c3, d3)
             && Overlaps(c3, d3, c2, d2)
    ensures Value(c1, d1, y) >= 0.0 && Value(c2, d2, y) >= 0.0 && Value(c3, d3, y) >= 0.0
  {
    hide Value, Gap;
    y := Start(c1, d1);
    if d2 > 0.0 && Value(c2, d2, y) < 0.0 {
      var z := Start(c2, d2);
      Later(c2, d2, y, z);
      StillAbove(c1, d1, y, z);
      y := z;
      y := PickLast(c2, d2, c1, d1, c3, d3, y);
    } else if d2 > 0.0 {
      y := PickLast(c1, d1, c2, d2, c3, d3, y);
    } else {
      var z := PickLast(c1, d1, c1, d1, c3, d3, y);
      if d2 == 0.0 {
        Constant(c2, d2, z);
      } else if z == y {
        BelowAtBound(c1, d1, c2, d2, z);
      } else {
        BelowAtBound(c3, d3, c2, d2, z);
      }
      y := z;
    }
  }

  // With two values settled and the first of them zero, the third can still be met.
  lemma PickLast(c1: real, d1: real, c2: real, d2: real, c3: real, d3: real, y: real) returns (z: real)
    requires d1 > 0.0 && d2 > 0.0 && Value(c1, d1, y) == 0.0 && Value(c2, d2, y) >= 0.0
    requires d3 == 0.0 ==> c3 >= 0.0
    requires Overlaps(c1, d1, c3, d3)
    ensures Value(c1, d1, z) >= 0.0 && Value(c2, d2, z) >= 0.0 && Value(c3, d3, z) >= 0.0
    ensures z == y || (d3 > 0.0 && Value(c3, d3, z) == 0.0)
  {
    hide Value, Gap;
    z := y;
    if d3 == 0.0 {
      Constant(c3, d3, z);
    } else if d3 < 0.0 {
      BelowAtBound(c1, d1, c3, d3, z);
    } else if Value(c3, d3, y) < 0.0 {
      z := Start(c3, d3);
      Later(c3, d3, y, z);
      StillAbove(c1, d1, y, z);
      StillAbove(c2, d2, y, z);
    }
  }

  lemma Constant(c: real, d: real, y: real)
    requires d == 0.0
    ensures Value(c, d, y) == c
  {
  }

  // Where an increasing value is zero.
  lemma Start(c: real, d: real) returns (y: real)
    requires d > 0.0
    ensures Value(c, d, y) == 0.0
  {
    y := -c / d;
    assert d * y == -c;
  }

  // The zero of an increasing value lies after where the value is negative.
  lemma Later(c: real, d: real, y: real, z: real)
    requires d > 0.0 && Value(c, d, y) < 0.0 && Value(c, d, z) == 0.0
    ensures y < z
  {
    if z <= y { ProductNonNegative(d, y - z); }
  }

  lemma StillAbove(c: real, d: real, y: real, z: real)
    requires d > 0.0 && Value(c, d, y) >= 0.0 && y <= z
    ensures Value(c, d, z) >= 0.0
  {
    ProductMonotone(y, z, d);
    assert d * y == y * d && d * z == z * d;
  }

  lemma BelowAtBound(c: real, d: real, c': real, d': real, y: real)
    requires d > 0.0 && d' < 0.0 && Value(c, d, y) == 0.0 && Gap(c, d, c', d') >= 0.0
    ensures Value(c', d', y) >= 0.0
  {
    assert d * y == -c;
    assert d * (c' + d' * y) == d * c' + d' * (d * y);
    if c' + d' * y < 0.0 { ProductPositive(d, -(c' + d' * y)); }
  }

  lemma ValueOnLine(h: HalfPlane, a: real, b: real, y: real)
    ensures h.At(Spot(a * y, b * y)) == Value(h.c, Slope(h, a, b), y)
  {
  }

  lemma ParallelsTurn(h: HalfPlane, k: HalfPlane)
    ensures Det(h, k) == -Det(k, h)
  {
  }

  lemma PairTurns(h: HalfPlane, k: HalfPlane)
    requires PairOk(h, k)
    ensures PairOk(k, h)
  {
    forall x: real, y: real | Cancel2(k, h, x, y) ensures x * k.c + y * h.c >= 0.0 {
      assert Cancel2(h, k, y, x);
    }
  }

  // Three parallel boundary lines, the first one a line indeed. Normals parallel to the first
  // are parallel to each other.
  lemma ParallelsMeet(h: HalfPlane, k: HalfPlane, l: HalfPlane)
    requires h.a != 0.0 || h.b != 0.0
    requires Det(h, k) == 0.0 && Det(h, l) == 0.0 && Det(k, l) == 0.0
    requires PairOk(h, k) && PairOk(h, l) && PairOk(k, l)
    ensures Meet(h, k, l)
  {
    var a, b := h.a, h.b;
    var d1, d2, d3 := Slope(h, a, b), Slope(k, a, b), Slope(l, a, b);
    NormPositive(a, b);
    OwnSlope(h);
    hide Slope, Norm;
    ParallelsTurn(k, l);
    ParallelsTurn(h, l);
    ParallelsTurn(h, k);
    PairTurns(h, k);
    PairTurns(h, l);
    PairTurns(k, l);
    hide PairOk, Det;
    if d2 == 0.0 { NoSlope(k, h); }
    if d3 == 0.0 { NoSlope(l, h); }
    if d2 < 0.0 { OppositeSlopes(h, k, a, b); }
    if d3 < 0.0 { OppositeSlopes(h, l, a, b); }
    if d2 > 0.0 && d3 < 0.0 { OppositeSlopes(k, l, a, b); }
    if d3 > 0.0 && d2 < 0.0 { OppositeSlopes(l, k, a, b); }
    hide Gap, Value;
    var y := PickCoordinate(h.c, d1, k.c, d2, l.c, d3);
    var x := Spot(a * y, b * y);
    ValueOnLine(h, a, b, y);
    ValueOnLine(k, a, b, y);
    ValueOnLine(l, a, b, y);
    hide HalfPlane.At;
    assert h.At(x) >= 0.0 && k.At(x) >= 0.0 && l.At(x) >= 0.0;
  }

  lemma NoLineMeets(h: HalfPlane, k: HalfPlane, l: HalfPlane)
    requires h.a == h.b == k.a == k.b == l.a == l.b == 0.0
    requires PairOk(h, k) && PairOk(k, l)
    ensures Meet(h, k, l)
  {
    assert Cancel2(h, k, 1.0, 0.0) && Cancel2(h, k, 0.0, 1.0) && Cancel2(k, l, 0.0, 1.0);
    var x := Spot(0.0, 0.0);
    assert h.At(x) >= 0.0 && k.At(x) >= 0.0 && l.At(x) >= 0.0;
  }

  // Three compatible half-planes have a common point.
  lemma CompatibleMeet(h: HalfPlane, k: HalfPlane, l: HalfPlane)
    requires Compatible(h, k, l)
    ensures Meet(h, k, l)
  {
    hide Meet, PairOk, Rest, TripleOk;
    ParallelsTurn(h, l);
    ParallelsTurn(h, k);
    ParallelsTurn(k, l);
    PairTurns(h, k);
    PairTurns(k, l);
    PairTurns(l, h);
    TripleTurns(h, k, l);
    TripleTurns(k, l, h);
    if Det(h, k) != 0.0 {
      CrossingMeets(h, k, l);
    } else if Det(k, l) != 0.0 {
      CrossingMeets(k, l, h);
      MeetTurns(k, l, h);
      MeetTurns(l, h, k);
    } else if Det(l, h) != 0.0 {
      CrossingMeets(l, h, k);
      MeetTurns(l, h, k);
    } else if h.a != 0.0 || h.b != 0.0 {
      ParallelsMeet(h, k, l);
    } else if k.a != 0.0 || k.b != 0.0 {
      ParallelsMeet(k, l, h);
      MeetTurns(k, l, h);
      MeetTurns(l, h, k);
    } else if l.a != 0.0 || l.b != 0.0 {
      ParallelsMeet(l, h, k);
      MeetTurns(l, h, k);
    } else {
      NoLineMeets(h, k, l);
    }
  }
}
