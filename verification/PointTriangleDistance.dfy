// The squared distance from a point to the points of a triangle, as a quadratic form in the
// barycentric coordinates, and where it is least.
module PointTriangleDistance {
  import opened RealArithmetic
  import opened Geometry

  // a00 u^2 + 2 a01 u v + a11 v^2 + 2 b0 u + 2 b1 v + c
  datatype Quad = Quad(a00: real, a01: real, a11: real, b0: real, b1: real, c: real) {
    function Value(u: real, v: real): real {
      a00 * (u * u) + 2.0 * (a01 * (u * v)) + a11 * (v * v) + 2.0 * (b0 * u) + 2.0 * (b1 * v) + c
    }

    function Det(): real { a00 * a11 - a01 * a01 }

    // The quadratic part alone.
    function Pure(x: real, y: real): real { a00 * (x * x) + 2.0 * (a01 * (x * y)) + a11 * (y * y) }

    // Half the gradient.
    function G0(u: real, v: real): real { a00 * u + a01 * v + b0 }

    function G1(u: real, v: real): real { a01 * u + a11 * v + b1 }

    // Numerators of the coordinates where the gradient vanishes.
    function U(): real { a01 * b1 - a11 * b0 }

    function V(): real { a01 * b0 - a00 * b1 }

    function Swap(): Quad { Quad(a11, a01, a00, b1, b0, c) }

    ghost predicate Definite() { a00 > 0.0 && a11 > 0.0 && Det() > 0.0 }
  }

  function FormOf(t: Triangle, center: Point): Quad {
    var e0 := t.v1.Minus(t.v0);
    var e1 := t.v2.Minus(t.v0);
    var d := t.v0.Minus(center);
    Quad(e0.SquareMagnitude(), e0.Dot(e1), e1.SquareMagnitude(), d.Dot(e0), d.Dot(e1), d.SquareMagnitude())
  }

  // The square of d + p u + r v, multiplied out.
  function Squared(d: real, p: real, r: real, u: real, v: real): real {
    (p * p) * (u * u) + 2.0 * ((p * r) * (u * v)) + (r * r) * (v * v)
    + 2.0 * ((d * p) * u) + 2.0 * ((d * r) * v) + d * d
  }

  lemma SquareOfSum(d: real, p: real, r: real, u: real, v: real, sum: real)
    requires sum == d + p * u + r * v
    ensures sum * sum == Squared(d, p, r, u, v)
  {
  }

  lemma FormSumsUp(d: Point, p: Point, r: Point, u: real, v: real)
    ensures var q := Quad(p.SquareMagnitude(), p.Dot(r), r.SquareMagnitude(), d.Dot(p), d.Dot(r), d.SquareMagnitude());
            q.Value(u, v) ==
            Squared(d.x, p.x, r.x, u, v) + Squared(d.y, p.y, r.y, u, v) + Squared(d.z, p.z, r.z, u, v)
  {
    Distribute(p.x * p.x, p.y * p.y, p.z * p.z, u * u, p.SquareMagnitude());
    Distribute(p.x * r.x, p.y * r.y, p.z * r.z, u * v, p.Dot(r));
    Distribute(r.x * r.x, r.y * r.y, r.z * r.z, v * v, r.SquareMagnitude());
    Distribute(d.x * p.x, d.y * p.y, d.z * p.z, u, d.Dot(p));
    Distribute(d.x * r.x, d.y * r.y, d.z * r.z, v, d.Dot(r));
  }

  lemma Distribute(a: real, b: real, c: real, k: real, sum: real)
    requires sum == a + b + c
    ensures sum * k == a * k + b * k + c * k
  {
  }

  lemma FormIsDistance(t: Triangle, center: Point, u: real, v: real)
    ensures At(t, u, v).SquareDistance(center) == FormOf(t, center).Value(u, v)
  {
    var e0 := t.v1.Minus(t.v0);
    var e1 := t.v2.Minus(t.v0);
    var d := t.v0.Minus(center);
    var p := At(t, u, v).Minus(center);
    FormSumsUp(d, e0, e1, u, v);
    hide Squared, Quad.Value, Point.Dot;
    SquareOfSum(d.x, e0.x, e1.x, u, v, p.x);
    SquareOfSum(d.y, e0.y, e1.y, u, v, p.y);
    SquareOfSum(d.z, e0.z, e1.z, u, v, p.z);
  }

  // The determinant is the squared length of the normal.
  lemma DetIsNormalSquared(t: Triangle, center: Point)
    ensures FormOf(t, center).Det() == t.v1.Minus(t.v0).Cross(t.v2.Minus(t.v0)).SquareMagnitude()
  {
    var a := t.v1.Minus(t.v0);
    var b := t.v2.Minus(t.v0);
    Lagrange(a.x, a.y, a.z, b.x, b.y, b.z);
  }

  lemma Lagrange(a: real, b: real, c: real, x: real, y: real, z: real)
    ensures (a * a + b * b + c * c) * (x * x + y * y + z * z) - (a * x + b * y + c * z) * (a * x + b * y + c * z) ==
            (b * z - c * y) * (b * z - c * y) + (c * x - a * z) * (c * x - a * z) + (a * y - b * x) * (a * y - b * x)
  {
  }

  lemma FormNonNegative(q: Quad, x: real, y: real)
    requires q.Definite()
    ensures q.Pure(x, y) >= 0.0
  {
    var f := q.Pure(x, y);
    assert q.a00 * f == (q.a00 * x + q.a01 * y) * (q.a00 * x + q.a01 * y) + q.Det() * (y * y);
    SquareNonNegative(q.a00 * x + q.a01 * y);
    SquareNonNegative(y);
    ProductNonNegative(q.Det(), y * y);
    if f < 0.0 {
      ProductPositive(q.a00, -f);
    }
  }

  ghost predicate IsLeast(q: Quad, u: real, v: real, value: real) {
    && Barycentric(u, v)
    && value == q.Value(u, v)
    && forall x: real, y: real :: Barycentric(x, y) ==> q.Value(x, y) >= value
  }

  // The form grows from (u, v) by its gradient and a nonnegative rest.
  lemma Growth(q: Quad, u: real, v: real, x: real, y: real)
    requires q.Definite()
    ensures q.Value(x, y) - q.Value(u, v) >= 2.0 * (q.G0(u, v) * (x - u) + q.G1(u, v) * (y - v))
  {
    FormNonNegative(q, x - u, y - v);
    GrowthIdentity(q, u, v, x, y);
    hide Quad.Value, Quad.G0, Quad.G1, Quad.Definite, Quad.Pure;
  }

  lemma GrowthIdentity(q: Quad, u: real, v: real, x: real, y: real)
    ensures q.Value(x, y) - q.Value(u, v) ==
            2.0 * (q.G0(u, v) * (x - u) + q.G1(u, v) * (y - v)) + q.Pure(x - u, y - v)
  {
  }

  // The gradient at (u, v) does not fall towards any corner of the triangle.
  ghost predicate NoCornerIsDownhill(g0: real, g1: real, u: real, v: real) {
    && -(g0 * u) - g1 * v >= 0.0
    && g0 * (1.0 - u) - g1 * v >= 0.0
    && -(g0 * u) + g1 * (1.0 - v) >= 0.0
  }

  lemma NotBelow(q: Quad, u: real, v: real, x: real, y: real)
    requires q.Definite() && Barycentric(u, v) && Barycentric(x, y)
    requires NoCornerIsDownhill(q.G0(u, v), q.G1(u, v), u, v)
    ensures q.Value(x, y) >= q.Value(u, v)
  {
    hide Quad.Value, Quad.G0, Quad.G1, Quad.Definite, NoCornerIsDownhill;
    Growth(q, u, v, x, y);
    Downhill(q.G0(u, v), q.G1(u, v), u, v, x, y);
  }

  lemma LeastWhenNoCornerIsDownhill(q: Quad, u: real, v: real)
    requires q.Definite() && Barycentric(u, v)
    requires NoCornerIsDownhill(q.G0(u, v), q.G1(u, v), u, v)
    ensures IsLeast(q, u, v, q.Value(u, v))
  {
    hide Quad.Value, Quad.G0, Quad.G1, Quad.Definite, NoCornerIsDownhill;
    forall x: real, y: real | Barycentric(x, y) ensures q.Value(x, y) >= q.Value(u, v) {
      NotBelow(q, u, v, x, y);
    }
  }

  lemma Downhill(g0: real, g1: real, u: real, v: real, x: real, y: real)
    requires Barycentric(x, y)
    requires NoCornerIsDownhill(g0, g1, u, v)
    ensures g0 * (x - u) + g1 * (y - v) >= 0.0
  {
    ProductNonNegative(1.0 - x - y, -(g0 * u) - g1 * v);
    ProductNonNegative(x, g0 * (1.0 - u) - g1 * v);
    ProductNonNegative(y, -(g0 * u) + g1 * (1.0 - v));
    assert g0 * (x - u) + g1 * (y - v) ==
           (1.0 - x - y) * (-(g0 * u) - g1 * v) + x * (g0 * (1.0 - u) - g1 * v) + y * (-(g0 * u) + g1 * (1.0 - v));
  }

  lemma DefiniteSides(q: Quad)
    requires q.Definite()
    ensures q.a00 - 2.0 * q.a01 + q.a11 > 0.0
  {
    var k := q.a01 - q.a00;
    assert q.a00 * (q.a00 - 2.0 * q.a01 + q.a11) == k * k + q.Det();
    SquareNonNegative(k);
    if q.a00 - 2.0 * q.a01 + q.a11 <= 0.0 {
      ProductNonNegative(q.a00, -(q.a00 - 2.0 * q.a01 + q.a11));
    }
  }

  // ---- the places the search can end, each with the sign conditions that make it least

  lemma LeastAtCorner0(q: Quad)
    requires q.Definite() && q.b0 >= 0.0 && q.b1 >= 0.0
    ensures IsLeast(q, 0.0, 0.0, q.c)
  {
    LeastWhenNoCornerIsDownhill(q, 0.0, 0.0);
  }

  lemma LeastAtCorner1(q: Quad)
    requires q.Definite() && q.a00 + q.b0 <= 0.0 && q.a01 + q.b1 >= q.a00 + q.b0
    ensures IsLeast(q, 1.0, 0.0, q.a00 + 2.0 * q.b0 + q.c)
  {
    LeastWhenNoCornerIsDownhill(q, 1.0, 0.0);
  }

  lemma LeastAtCorner2(q: Quad)
    requires q.Definite() && q.a11 + q.b1 <= 0.0 && q.a01 + q.b0 >= q.a11 + q.b1
    ensures IsLeast(q, 0.0, 1.0, q.a11 + 2.0 * q.b1 + q.c)
  {
    LeastWhenNoCornerIsDownhill(q, 0.0, 1.0);
  }

  // The form at the foot of the perpendicular on an edge at corner 0.
  function OnLine(b: real, x: real, c: real): real { b * x + c }

  lemma LeastOnEdge0(q: Quad, a00: real, b0: real, u: real)
    requires q.Definite() && q.V() <= 0.0 && q.a00 == a00 && q.b0 == b0
    requires 0.0 < -b0 < a00 && u == -b0 / a00
    ensures IsLeast(q, u, 0.0, OnLine(b0, u, q.c))
  {
    QuotientInUnit(-b0, a00);
    SlopeAcross(a00, q.a01, u, b0, q.b1, q.V());
    ValueOnEdge(a00, u, b0, q.c);
    AlongEdge0(q, u);
    hide Quad.Value, Quad.G0, Quad.G1, Quad.Definite;
    FlatAlongEdge0(q.G1(u, 0.0), u);
    hide NoCornerIsDownhill, IsLeast;
    LeastWhenNoCornerIsDownhill(q, u, 0.0);
  }

  lemma FlatAlongEdge0(g1: real, u: real)
    requires g1 >= 0.0
    ensures NoCornerIsDownhill(0.0, g1, u, 0.0)
  {
  }

  lemma FlatAlongEdge1(g0: real, v: real)
    requires g0 >= 0.0
    ensures NoCornerIsDownhill(g0, 0.0, 0.0, v)
  {
  }

  lemma AlongEdge0(q: Quad, u: real)
    ensures q.G0(u, 0.0) == q.a00 * u + q.b0 && q.G1(u, 0.0) == q.a01 * u + q.b1
    ensures q.Value(u, 0.0) == q.a00 * (u * u) + 2.0 * (q.b0 * u) + q.c
  {
  }

  lemma AlongEdge1(q: Quad, v: real)
    ensures q.G1(0.0, v) == q.a11 * v + q.b1 && q.G0(0.0, v) == q.a01 * v + q.b0
    ensures q.Value(0.0, v) == q.a11 * (v * v) + 2.0 * (q.b1 * v) + q.c
  {
  }

  // The slope into the triangle, at the foot on an edge.
  lemma SlopeAcross(a: real, k: real, x: real, b: real, b': real, n: real)
    requires a > 0.0 && a * x == -b && n == k * b - a * b' && n <= 0.0
    ensures k * x + b' >= 0.0
  {
    assert a * (k * x + b') == k * (a * x) + a * b';
    if k * x + b' < 0.0 {
      ProductPositive(a, -(k * x + b'));
    }
  }

  lemma ValueOnEdge(a: real, x: real, b: real, c: real)
    requires a * x == -b
    ensures a * (x * x) + 2.0 * (b * x) + c == OnLine(b, x, c)
  {
    assert a * (x * x) == (a * x) * x;
  }

  lemma LeastOnEdge1(q: Quad, a11: real, b1: real, v: real)
    requires q.Definite() && q.U() <= 0.0 && q.a11 == a11 && q.b1 == b1
    requires 0.0 < -b1 < a11 && v == -b1 / a11
    ensures IsLeast(q, 0.0, v, OnLine(b1, v, q.c))
  {
    QuotientInUnit(-b1, a11);
    SlopeAcross(a11, q.a01, v, b1, q.b0, q.U());
    ValueOnEdge(a11, v, b1, q.c);
    AlongEdge1(q, v);
    hide Quad.Value, Quad.G0, Quad.G1, Quad.Definite;
    FlatAlongEdge1(q.G0(0.0, v), v);
    hide NoCornerIsDownhill, IsLeast;
    LeastWhenNoCornerIsDownhill(q, 0.0, v);
  }

  lemma QuotientInUnit(n: real, d: real)
    requires 0.0 < n < d
    ensures 0.0 < n / d < 1.0 && d * (n / d) == n
  {
    var r := n / d;
    assert r * d == n;
    if r <= 0.0 {
      ProductNonNegative(-r, d);
    }
    if r >= 1.0 {
      ProductNonNegative(r - 1.0, d);
    }
  }

  lemma LeastOnEdge2(q: Quad, u: real, v: real)
    requires q.Definite() && q.U() + q.V() >= q.Det()
    requires 0.0 < u < 1.0 && v == 1.0 - u
    requires u * (q.a00 - 2.0 * q.a01 + q.a11) == q.a11 + q.b1 - q.a01 - q.b0
    ensures IsLeast(q, u, v, q.Value(u, v))
  {
    var denom := q.a00 - 2.0 * q.a01 + q.a11;
    var numer := q.a11 + q.b1 - q.a01 - q.b0;
    DefiniteSides(q);
    var g := q.G0(u, v);
    assert q.G1(u, v) == g - (u * denom - numer);
    assert denom * g == (q.a00 - q.a01) * (u * denom) + (q.a01 + q.b0) * denom;
    assert (q.a00 - q.a01) * numer + (q.a01 + q.b0) * denom == q.Det() - q.U() - q.V();
    if g > 0.0 {
      ProductPositive(denom, g);
    }
    assert -(g * u) - g * v == -g;
    assert g * (1.0 - u) - g * v == 0.0 && -(g * u) + g * (1.0 - v) == 0.0;
    LeastWhenNoCornerIsDownhill(q, u, v);
  }

  lemma LeastInside(q: Quad, u: real, v: real)
    requires q.Definite() && q.U() >= 0.0 && q.V() >= 0.0 && q.U() + q.V() <= q.Det()
    requires u * q.Det() == q.U() && v * q.Det() == q.V()
    ensures IsLeast(q, u, v, q.Value(u, v))
  {
    var d := q.Det();
    if u < 0.0 { ProductPositive(-u, d); }
    if v < 0.0 { ProductPositive(-v, d); }
    if u + v > 1.0 { ProductPositive(u + v - 1.0, d); }
    assert d * q.G0(u, v) == q.a00 * (u * d) + q.a01 * (v * d) + q.b0 * d == 0.0;
    assert d * q.G1(u, v) == q.a01 * (u * d) + q.a11 * (v * d) + q.b1 * d == 0.0;
    ZeroFactor(d, q.G0(u, v));
    ZeroFactor(d, q.G1(u, v));
    LeastWhenNoCornerIsDownhill(q, u, v);
  }

  lemma ZeroFactor(a: real, b: real)
    requires a > 0.0 && a * b == 0.0
    ensures b == 0.0
  {
    if b > 0.0 { ProductPositive(a, b); }
    if b < 0.0 { ProductPositive(a, -b); }
  }

  // ---- sign conditions that follow from the region

  // h is the slope from corner 1 towards corner 2, s the slope along edge 0 there.
  lemma SlopesAtCorner1(q: Quad)
    ensures var s := q.a00 + q.b0; var h := q.a01 + q.b1 - s; var k := q.a01 - q.a00;
            var denom := q.a00 - 2.0 * q.a01 + q.a11;
            && q.Det() - q.U() - q.V() == s * denom - k * h
            && q.a00 * h == k * s - q.V()
            && q.a00 * denom - k * k == q.Det()
  {
  }

  lemma Corner1NotDownhill(q: Quad)
    requires q.Definite() && q.U() + q.V() <= q.Det() && q.V() <= 0.0 && q.a00 + q.b0 <= 0.0
    ensures q.a01 + q.b1 >= q.a00 + q.b0
  {
    var s, k := q.a00 + q.b0, q.a01 - q.a00;
    var h := q.a01 + q.b1 - s;
    var denom := q.a00 - 2.0 * q.a01 + q.a11;
    SlopesAtCorner1(q);
    SlopeSign(q.a00, s, k, h, denom, q.Det());
  }

  lemma SlopeSign(a: real, s: real, k: real, h: real, denom: real, det: real)
    requires a > 0.0 && det > 0.0 && s <= 0.0 && a * denom - k * k == det
    requires a * h >= k * s && s * denom - k * h >= 0.0
    ensures h >= 0.0
  {
    if h < 0.0 {
      ProductPositive(a, -h);
      if k <= 0.0 {
        ProductNonNegative(-k, -s);
      } else {
        ProductNonNegative(k, a * h - k * s);
        ProductNonNegative(a, s * denom - k * h);
        SlopeIdentity(a, s, k, h, denom, det);
        if s < 0.0 {
          ProductPositive(-s, det);
        } else {
          ProductPositive(k, -h);
        }
      }
    }
  }

  lemma SlopeIdentity(a: real, s: real, k: real, h: real, denom: real, det: real)
    requires a * denom - k * k == det
    ensures k * (a * h - k * s) + a * (s * denom - k * h) == s * det
  {
    assert k * (a * h - k * s) + a * (s * denom - k * h) == s * (a * denom - k * k);
  }

  lemma BeyondCorner1(q: Quad)
    requires q.Definite() && q.U() + q.V() > q.Det() && q.V() >= 0.0 && q.a01 + q.b1 >= q.a00 + q.b0
    ensures q.a00 + q.b0 <= 0.0
  {
    var s, k := q.a00 + q.b0, q.a01 - q.a00;
    var h := q.a01 + q.b1 - s;
    var denom := q.a00 - 2.0 * q.a01 + q.a11;
    SlopesAtCorner1(q);
    DefiniteSides(q);
    if s > 0.0 {
      ProductPositive(s, denom);
      if k <= 0.0 {
        ProductNonNegative(-k, h);
      } else {
        // s denom < k h and a00 h <= k s
        ProductPositive(q.a00, k * h - s * denom);
        ProductNonNegative(k, k * s - q.a00 * h);
        ProductPositive(s, q.Det());
      }
    }
  }

  lemma Corner0NotDownhill(q: Quad)
    requires q.Definite() && q.U() <= 0.0 && q.V() >= 0.0 && q.b1 >= 0.0
    ensures q.b0 >= 0.0
  {
    if q.b0 < 0.0 {
      ProductPositive(q.a11, -q.b0);
      if q.a01 >= 0.0 {
        ProductNonNegative(q.a01, q.b1);
      } else {
        // a01 b1 <= a11 b0 and a01 b0 >= a00 b1
        ProductNonNegative(-q.a01, q.a11 * q.b0 - q.a01 * q.b1);
        ProductNonNegative(q.a11, q.a01 * q.b0 - q.a00 * q.b1);
        if q.b1 > 0.0 {
          ProductPositive(q.Det(), q.b1);
        }
      }
    }
  }

  // ---- the same conditions with the two edges exchanged

  lemma SwapKeeps(q: Quad)
    ensures q.Swap().Det() == q.Det() && q.Swap().U() == q.V() && q.Swap().V() == q.U()
    ensures q.Definite() ==> q.Swap().Definite()
  {
  }

  lemma Corner2NotDownhill(q: Quad)
    requires q.Definite() && q.U() + q.V() <= q.Det() && q.U() <= 0.0 && q.a11 + q.b1 <= 0.0
    ensures q.a01 + q.b0 >= q.a11 + q.b1
  {
    SwapKeeps(q);
    Corner1NotDownhill(q.Swap());
  }

  lemma BeyondCorner2(q: Quad)
    requires q.Definite() && q.U() + q.V() > q.Det() && q.U() >= 0.0 && q.a01 + q.b0 >= q.a11 + q.b1
    ensures q.a11 + q.b1 <= 0.0
  {
    SwapKeeps(q);
    BeyondCorner1(q.Swap());
  }

  lemma Corner0NotDownhillOther(q: Quad)
    requires q.Definite() && q.V() <= 0.0 && q.U() >= 0.0 && q.b0 >= 0.0
    ensures q.b1 >= 0.0
  {
    SwapKeeps(q);
    Corner0NotDownhill(q.Swap());
  }
}
