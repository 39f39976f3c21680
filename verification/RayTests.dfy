// The ray-triangle intersection and the segment-box and ray-box tests.
module RayTests {
  import opened RealArithmetic
  import opened Geometry

  const LOCAL_EPSILON: real := 0.000001

  datatype Ray = Ray(origin: Point, dir: Point)

  function Along(r: Ray, s: real): Point { r.origin.Plus(r.dir.Times(s)) }

  datatype Crossing = Crossing(distance: real, u: real, v: real)

  function Edge1(t: Triangle): Point { t.v1.Minus(t.v0) }

  function Edge2(t: Triangle): Point { t.v2.Minus(t.v0) }

  function RayDet(r: Ray, t: Triangle): real { Edge1(t).Dot(r.dir.Cross(Edge2(t))) }

  // The ray is not nearly parallel to the triangle, nor behind it when culling.
  predicate Facing(culling: bool, det: real) {
    if culling then det >= LOCAL_EPSILON else det <= -LOCAL_EPSILON || det >= LOCAL_EPSILON
  }

  // Where the line of the ray meets the plane of the triangle, by Cramer's rule.
  function CrossingOf(r: Ray, t: Triangle): Crossing
    requires RayDet(r, t) != 0.0
  {
    var inv := 1.0 / RayDet(r, t);
    var tvec := r.origin.Minus(t.v0);
    var qvec := tvec.Cross(Edge1(t));
    Crossing(Edge2(t).Dot(qvec) * inv, tvec.Dot(r.dir.Cross(Edge2(t))) * inv, r.dir.Dot(qvec) * inv)
  }

  // The point of the line at the crossing is the point of the plane at the crossing.
  ghost predicate Solves(r: Ray, t: Triangle, c: Crossing) {
    Along(r, c.distance) == At(t, c.u, c.v)
  }

  predicate RayHits(r: Ray, culling: bool, t: Triangle) {
    Facing(culling, RayDet(r, t)) && var c := CrossingOf(r, t); c.u >= 0.0 && c.v >= 0.0 && c.u + c.v <= 1.0
  }

  // One component of Cramer's rule for a = u e + v f - s d.
  lemma CramerComponent(a: Point, d: Point, e: Point, f: Point)
    ensures e.x * a.Dot(d.Cross(f)) + f.x * d.Dot(a.Cross(e)) - d.x * f.Dot(a.Cross(e)) == a.x * e.Dot(d.Cross(f))
  {
  }

  lemma ScaledCramer(a: real, b: real, c: real, e: real, f: real, d: real, x: real, det: real, inv: real)
    requires e * a + f * b - d * c == x * det
    requires inv * det == 1.0
    ensures e * (a * inv) + f * (b * inv) - d * (c * inv) == x
  {
    assert e * (a * inv) + f * (b * inv) - d * (c * inv) == (e * a + f * b - d * c) * inv;
    assert (x * det) * inv == x * (inv * det);
  }

  lemma CrossingSolves(r: Ray, t: Triangle)
    requires RayDet(r, t) != 0.0
    ensures Solves(r, t, CrossingOf(r, t))
  {
    hide Point.Dot, Point.Cross;
    var det := RayDet(r, t);
    var inv := 1.0 / det;
    assert inv * det == 1.0;
    var e, f, d, a := Edge1(t), Edge2(t), r.dir, r.origin.Minus(t.v0);
    var nu, nv, nt := a.Dot(d.Cross(f)), d.Dot(a.Cross(e)), f.Dot(a.Cross(e));
    CramerComponent(a, d, e, f);
    CramerY(a, d, e, f);
    CramerZ(a, d, e, f);
    ScaledCramer(nu, nv, nt, e.x, f.x, d.x, a.x, det, inv);
    ScaledCramer(nu, nv, nt, e.y, f.y, d.y, a.y, det, inv);
    ScaledCramer(nu, nv, nt, e.z, f.z, d.z, a.z, det, inv);
    var c := CrossingOf(r, t);
    assert c == Crossing(nt * inv, nu * inv, nv * inv);
  }

  lemma CramerY(a: Point, d: Point, e: Point, f: Point)
    ensures e.y * a.Dot(d.Cross(f)) + f.y * d.Dot(a.Cross(e)) - d.y * f.Dot(a.Cross(e)) == a.y * e.Dot(d.Cross(f))
  {
  }

  lemma CramerZ(a: Point, d: Point, e: Point, f: Point)
    ensures e.z * a.Dot(d.Cross(f)) + f.z * d.Dot(a.Cross(e)) - d.z * f.Dot(a.Cross(e)) == a.z * e.Dot(d.Cross(f))
  {
  }

  // A solution has the coordinates Cramer's rule gives.
  lemma SolutionIsCrossing(r: Ray, t: Triangle, c: Crossing)
    requires RayDet(r, t) != 0.0 && Solves(r, t, c)
    ensures c == CrossingOf(r, t)
  {
    hide Point.Dot, Point.Cross;
    var e, f, d, a := Edge1(t), Edge2(t), r.dir, r.origin.Minus(t.v0);
    var det := RayDet(r, t);
    assert a.x == e.x * c.u + f.x * c.v - d.x * c.distance;
    assert a.y == e.y * c.u + f.y * c.v - d.y * c.distance;
    assert a.z == e.z * c.u + f.z * c.v - d.z * c.distance;
    CombinationU(a, d, e, f, c.u, c.v, c.distance);
    CombinationV(a, d, e, f, c.u, c.v, c.distance);
    CombinationT(a, d, e, f, c.u, c.v, c.distance);
    var inv := 1.0 / det;
    assert inv * det == 1.0;
    Cancel(c.u, det, inv);
    Cancel(c.v, det, inv);
    Cancel(c.distance, det, inv);
  }

  lemma Cancel(x: real, det: real, inv: real)
    requires inv * det == 1.0
    ensures (x * det) * inv == x
  {
    assert (x * det) * inv == x * (inv * det);
  }

  lemma DotCombines(d: Point, e: Point, f: Point, u: real, v: real, s: real, k: Point)
    ensures e.Times(u).Plus(f.Times(v)).Minus(d.Times(s)).Dot(k) == u * e.Dot(k) + v * f.Dot(k) - s * d.Dot(k)
  {
    DotScales(e, u, k);
    DotScales(f, v, k);
    DotScales(d, s, k);
    hide Point.Times;
  }

  lemma DotScales(p: Point, s: real, k: Point)
    ensures p.Times(s).Dot(k) == s * p.Dot(k)
  {
  }

  lemma OwnCross(p: Point, q: Point)
    ensures p.Dot(p.Cross(q)) == 0.0 && q.Dot(p.Cross(q)) == 0.0
  {
  }

  lemma CyclicTriple(a: Point, b: Point, c: Point)
    ensures a.Dot(b.Cross(c)) == b.Dot(c.Cross(a))
  {
  }

  lemma OnlyTerm(u: real, v: real, s: real, x: real, y: real, z: real)
    ensures y == 0.0 && z == 0.0 ==> u * x + v * y - s * z == u * x
    ensures x == 0.0 && z == 0.0 ==> u * x + v * y - s * z == v * y
    ensures x == 0.0 && y == 0.0 ==> u * x + v * y - s * z == -(s * z)
  {
  }

  lemma CombinationU(a: Point, d: Point, e: Point, f: Point, u: real, v: real, s: real)
    requires a == e.Times(u).Plus(f.Times(v)).Minus(d.Times(s))
    ensures a.Dot(d.Cross(f)) == u * e.Dot(d.Cross(f))
  {
    hide Point.Dot, Point.Cross, Point.Times, Point.Plus, Point.Minus;
    var k := d.Cross(f);
    DotCombines(d, e, f, u, v, s, k);
    OwnCross(d, f);
    OnlyTerm(u, v, s, e.Dot(k), f.Dot(k), d.Dot(k));
  }

  lemma CombinationV(a: Point, d: Point, e: Point, f: Point, u: real, v: real, s: real)
    requires a == e.Times(u).Plus(f.Times(v)).Minus(d.Times(s))
    ensures d.Dot(a.Cross(e)) == v * e.Dot(d.Cross(f))
  {
    hide Point.Dot, Point.Cross, Point.Times, Point.Plus, Point.Minus;
    var k := e.Cross(d);
    CyclicTriple(d, a, e);
    DotCombines(d, e, f, u, v, s, k);
    OwnCross(e, d);
    CyclicTriple(f, e, d);
    OnlyTerm(u, v, s, e.Dot(k), f.Dot(k), d.Dot(k));
  }

  lemma CombinationT(a: Point, d: Point, e: Point, f: Point, u: real, v: real, s: real)
    requires a == e.Times(u).Plus(f.Times(v)).Minus(d.Times(s))
    ensures f.Dot(a.Cross(e)) == s * e.Dot(d.Cross(f))
  {
    hide Point.Dot, Point.Cross, Point.Times, Point.Plus, Point.Minus;
    var k := e.Cross(f);
    CyclicTriple(f, a, e);
    DotCombines(d, e, f, u, v, s, k);
    OwnCross(e, f);
    OppositeCross(d, e, f);
    CyclicTriple(d, f, e);
    CyclicTriple(f, e, d);
    NegatedTerm(s, d.Dot(k), d.Dot(f.Cross(e)));
    OnlyTerm(u, v, s, e.Dot(k), f.Dot(k), d.Dot(k));
  }

  // Swapping the factors of a cross product turns the product around.
  lemma OppositeCross(d: Point, e: Point, f: Point)
    ensures d.Dot(e.Cross(f)) == -d.Dot(f.Cross(e))
  {
  }

  lemma NegatedTerm(s: real, x: real, y: real)
    requires x == -y
    ensures -(s * x) == s * y
  {
  }

  // The test accepts exactly the triangles that a point of the line lies on.
  lemma HitsExactlyWhenSolved(r: Ray, culling: bool, t: Triangle)
    ensures RayHits(r, culling, t) <==>
            Facing(culling, RayDet(r, t)) && exists c: Crossing :: Solves(r, t, c) && Barycentric(c.u, c.v)
  {
    if Facing(culling, RayDet(r, t)) {
      CrossingSolves(r, t);
      forall c: Crossing | Solves(r, t, c) && Barycentric(c.u, c.v)
        ensures c == CrossingOf(r, t)
      {
        SolutionIsCrossing(r, t, c);
      }
    }
  }

  // ---- the order of the corners

  function Turned(t: Triangle): Triangle { Triangle(t.v0, t.v2, t.v1) }

  function Cycled(t: Triangle): Triangle { Triangle(t.v1, t.v2, t.v0) }

  // The determinant tells whether the normal of the triangle points against the ray.
  lemma DetIsAgainstNormal(r: Ray, t: Triangle)
    ensures RayDet(r, t) == -r.dir.Dot(Edge1(t).Cross(Edge2(t)))
    ensures RayDet(r, Turned(t)) == -RayDet(r, t)
    ensures RayDet(r, Cycled(t)) == RayDet(r, t)
  {
    var e, f, d := Edge1(t), Edge2(t), r.dir;
    TripleTurns(e, d, f);
    TripleTurns(f, d, e);
    assert Edge1(Cycled(t)) == f.Minus(e) && Edge2(Cycled(t)) == Point(0.0, 0.0, 0.0).Minus(e);
    TripleOfDifferences(d, e, f);
  }

  lemma TripleTurns(e: Point, d: Point, f: Point)
    ensures e.Dot(d.Cross(f)) == -d.Dot(e.Cross(f)) && f.Dot(d.Cross(e)) == -e.Dot(d.Cross(f))
  {
    hide Point.Dot, Point.Cross;
    CyclicTriple(e, d, f);
    CyclicTriple(f, d, e);
    OppositeCross(d, e, f);
  }

  lemma TripleOfDifferences(d: Point, e: Point, f: Point)
    ensures f.Minus(e).Dot(d.Cross(Point(0.0, 0.0, 0.0).Minus(e))) == e.Dot(d.Cross(f))
  {
  }

  lemma SolvesTurned(r: Ray, t: Triangle, c: Crossing)
    ensures Solves(r, t, c) <==> Solves(r, Turned(t), Crossing(c.distance, c.v, c.u))
    ensures Solves(r, t, c) <==> Solves(r, Cycled(t), Crossing(c.distance, c.v, 1.0 - c.u - c.v))
  {
    hide Along;
    AtTurned(t, c.u, c.v);
  }

  lemma AtTurned(t: Triangle, u: real, v: real)
    ensures At(Turned(t), v, u) == At(t, u, v) && At(Cycled(t), v, 1.0 - u - v) == At(t, u, v)
  {
    AtComponents(t.v0.x, t.v1.x, t.v2.x, u, v);
    AtComponents(t.v0.y, t.v1.y, t.v2.y, u, v);
    AtComponents(t.v0.z, t.v1.z, t.v2.z, u, v);
  }

  lemma AtComponents(a: real, b: real, c: real, u: real, v: real)
    ensures b + (c - b) * v + (a - b) * (1.0 - u - v) == a + (b - a) * u + (c - a) * v
  {
  }

  // Starting at another corner changes no answer. Without culling neither does the sense in which the
  // corners run, and with culling exactly one sense of each triangle is hit.
  lemma CornersInAnyOrder(r: Ray, t: Triangle)
    ensures forall culling: bool :: RayHits(r, culling, Cycled(t)) == RayHits(r, culling, t)
    ensures RayHits(r, false, Turned(t)) == RayHits(r, false, t)
    ensures RayHits(r, false, t) <==> RayHits(r, true, t) || RayHits(r, true, Turned(t))
    ensures !(RayHits(r, true, t) && RayHits(r, true, Turned(t)))
    ensures RayHits(r, true, t) ==> r.dir.Dot(Edge1(t).Cross(Edge2(t))) < 0.0
  {
    DetIsAgainstNormal(r, t);
    SolvedInAnyOrder(r, t);
    forall culling: bool
      ensures RayHits(r, culling, t) <==> Facing(culling, RayDet(r, t)) && CrossedInside(r, t)
      ensures RayHits(r, culling, Turned(t)) <==> Facing(culling, -RayDet(r, t)) && CrossedInside(r, t)
      ensures RayHits(r, culling, Cycled(t)) <==> Facing(culling, RayDet(r, t)) && CrossedInside(r, t)
    {
      HitsExactlyWhenSolved(r, culling, t);
      HitsExactlyWhenSolved(r, culling, Turned(t));
      HitsExactlyWhenSolved(r, culling, Cycled(t));
    }
    hide RayHits, CrossedInside, RayDet, Edge1, Edge2, Point.Dot, Point.Cross;
  }

  ghost predicate CrossedInside(r: Ray, t: Triangle) { exists c: Crossing :: Solves(r, t, c) && Barycentric(c.u, c.v) }

  lemma SolvedInAnyOrder(r: Ray, t: Triangle)
    ensures CrossedInside(r, Turned(t)) == CrossedInside(r, t) && CrossedInside(r, Cycled(t)) == CrossedInside(r, t)
  {
    hide Solves, At;
    if CrossedInside(r, t) {
      var c: Crossing :| Solves(r, t, c) && Barycentric(c.u, c.v);
      SolvesTurned(r, t, c);
    }
    if CrossedInside(r, Turned(t)) {
      var c: Crossing :| Solves(r, Turned(t), c) && Barycentric(c.u, c.v);
      SolvesTurned(r, t, Crossing(c.distance, c.v, c.u));
    }
    if CrossedInside(r, Cycled(t)) {
      var c: Crossing :| Solves(r, Cycled(t), c) && Barycentric(c.u, c.v);
      SolvesTurned(r, t, Crossing(c.distance, 1.0 - c.u - c.v, c.u));
    }
  }

  // ---- boxes

  predicate SegmentBoxAxes(h: Point, m: Point, center: Point, e: Point) {
    var d := m.Minus(center);
    && Abs(d.x) <= e.x + Abs(h.x)
    && Abs(d.y) <= e.y + Abs(h.y)
    && Abs(d.z) <= e.z + Abs(h.z)
    && CrossAxes(h, d, e)
  }

  predicate RayBoxAxes(dir: Point, origin: Point, center: Point, e: Point) {
    var d := origin.Minus(center);
    && !(Abs(d.x) > e.x && d.x * dir.x >= 0.0)
    && !(Abs(d.y) > e.y && d.y * dir.y >= 0.0)
    && !(Abs(d.z) > e.z && d.z * dir.z >= 0.0)
    && CrossAxes(dir, d, e)
  }

  // The three axes perpendicular to the line and to a side of the box.
  predicate CrossAxes(h: Point, d: Point, e: Point) {
    && CrossAxis(h.y, h.z, d.y, d.z, e.y, e.z)
    && CrossAxis(h.z, h.x, d.z, d.x, e.z, e.x)
    && CrossAxis(h.x, h.y, d.x, d.y, e.x, e.y)
  }

  predicate CrossAxis(hy: real, hz: real, dy: real, dz: real, ey: real, ez: real) {
    Abs(hy * dz - hz * dy) <= ey * Abs(hz) + ez * Abs(hy)
  }

  lemma AbsProduct(a: real, b: real, e: real)
    requires Abs(b) <= e
    ensures Abs(a * b) <= Abs(a) * e
  {
    ProductMonotone(Abs(b), e, Abs(a));
    assert Abs(a * b) == Abs(a) * Abs(b) by {
      AbsOfProduct(a, b);
    }
  }

  lemma AbsOfProduct(a: real, b: real)
    ensures Abs(a * b) == Abs(a) * Abs(b)
  {
    if a >= 0.0 && b >= 0.0 {
      ProductNonNegative(a, b);
    } else if a < 0.0 && b < 0.0 {
      ProductPositive(-a, -b);
    } else if a >= 0.0 {
      ProductNonNegative(a, -b);
    } else {
      ProductNonNegative(-a, b);
    }
  }

  // With d = w - s h, the part along h drops out of the cross product.
  lemma CrossAxisNeverRejects(hy: real, hz: real, dy: real, dz: real, wy: real, wz: real, ey: real, ez: real, s: real)
    requires dy == wy - hy * s && dz == wz - hz * s
    requires Abs(wy) <= ey && Abs(wz) <= ez
    ensures CrossAxis(hy, hz, dy, dz, ey, ez)
  {
    hide Abs;
    AlongDropsOut(hy, hz, wy, wz, s);
    AbsProduct(hy, wz, ez);
    AbsProduct(hz, wy, ey);
    AbsOfDifference(hy * wz, hz * wy, Abs(hy) * ez, Abs(hz) * ey);
    assert hy * dz - hz * dy == hy * wz - hz * wy;
    assert Abs(hy) * ez == ez * Abs(hy) && Abs(hz) * ey == ey * Abs(hz);
  }

  lemma AlongDropsOut(hy: real, hz: real, wy: real, wz: real, s: real)
    ensures hy * (wz - hz * s) - hz * (wy - hy * s) == hy * wz - hz * wy
  {
  }

  lemma AbsOfDifference(p: real, q: real, a: real, b: real)
    requires Abs(p) <= a && Abs(q) <= b
    ensures Abs(p - q) <= b + a
  {
  }

  lemma CrossAxesNeverReject(h: Point, d: Point, w: Point, e: Point, s: real)
    requires d == w.Minus(h.Times(s))
    requires Abs(w.x) <= e.x && Abs(w.y) <= e.y && Abs(w.z) <= e.z
    ensures CrossAxes(h, d, e)
  {
    hide CrossAxis;
    CrossAxisNeverRejects(h.y, h.z, d.y, d.z, w.y, w.z, e.y, e.z, s);
    CrossAxisNeverRejects(h.z, h.x, d.z, d.x, w.z, w.x, e.z, e.x, s);
    CrossAxisNeverRejects(h.x, h.y, d.x, d.y, w.x, w.y, e.x, e.y, s);
  }

  // The segment test never rejects a box holding a point of the segment m - h .. m + h.
  lemma SegmentTestNeverRejects(h: Point, m: Point, b: Box, s: real)
    requires -1.0 <= s <= 1.0
    requires InBox(m.Plus(h.Times(s)), b)
    ensures SegmentBoxAxes(h, m, b.center, b.extents)
  {
    var d := m.Minus(b.center);
    var w := m.Plus(h.Times(s)).Minus(b.center);
    hide CrossAxes;
    WithinReach(d.x, h.x, w.x, b.extents.x, s);
    WithinReach(d.y, h.y, w.y, b.extents.y, s);
    WithinReach(d.z, h.z, w.z, b.extents.z, s);
    InBoxOffsets(m.Plus(h.Times(s)), b);
    CrossAxesNeverReject(h, d, w, b.extents, s);
  }

  lemma InBoxOffsets(p: Point, b: Box)
    requires InBox(p, b)
    ensures var w := p.Minus(b.center);
            Abs(w.x) <= b.extents.x && Abs(w.y) <= b.extents.y && Abs(w.z) <= b.extents.z
  {
  }

  lemma WithinReach(d: real, h: real, w: real, e: real, s: real)
    requires -1.0 <= s <= 1.0 && w == d + h * s && -e <= w <= e
    ensures Abs(d) <= e + Abs(h)
  {
    AbsProduct(h, s, 1.0);
    assert Abs(h * s) <= Abs(h);
  }

  // The ray test never rejects a box holding a point of the ray.
  lemma RayTestNeverRejects(r: Ray, b: Box, s: real)
    requires s >= 0.0 && InBox(Along(r, s), b)
    ensures RayBoxAxes(r.dir, r.origin, b.center, b.extents)
  {
    hide CrossAxes;
    var d := r.origin.Minus(b.center);
    var w := Along(r, s).Minus(b.center);
    InBoxOffsets(Along(r, s), b);
    CrossAxesNeverReject(r.dir, d, w, b.extents, s);
    AheadOnAxis(d.x, r.dir.x, w.x, b.extents.x, s);
    AheadOnAxis(d.y, r.dir.y, w.y, b.extents.y, s);
    AheadOnAxis(d.z, r.dir.z, w.z, b.extents.z, s);
  }

  lemma AheadOnAxis(d: real, h: real, w: real, e: real, s: real)
    requires s >= 0.0 && w == d + h * s && Abs(w) <= e
    ensures !(Abs(d) > e && d * h >= 0.0)
  {
    if d > e && d * h >= 0.0 {
      if h < 0.0 { ProductPositive(d, -h); }
      ProductNonNegative(h, s);
    }
    if -d > e && d * h >= 0.0 {
      if h > 0.0 { ProductPositive(-d, h); }
      ProductNonNegative(-h, s);
    }
  }

  // Comparing the unscaled numerators with the determinant is comparing the quotients.
  lemma UnscaledComparisons(nu: real, nv: real, det: real, inv: real)
    requires det > 0.0 && inv == 1.0 / det
    ensures nu * inv >= 0.0 <==> nu >= 0.0
    ensures nv * inv >= 0.0 <==> nv >= 0.0
    ensures nu * inv + nv * inv <= 1.0 <==> nu + nv <= det
  {
    assert inv * det == 1.0;
    if inv <= 0.0 { ProductNonNegative(-inv, det); }
    SignOfScaled(nu, inv);
    SignOfScaled(nv, inv);
    SignOfScaled(det - (nu + nv), inv);
    assert (det - (nu + nv)) * inv == 1.0 - (nu * inv + nv * inv);
  }

  lemma SignOfScaled(n: real, k: real)
    requires k > 0.0
    ensures n * k >= 0.0 <==> n >= 0.0
  {
    if n >= 0.0 { ProductNonNegative(n, k); } else { ProductPositive(-n, k); }
  }
}
