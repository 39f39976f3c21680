// The separating-axis test of a triangle and an axis-aligned box.
module TriangleBox {
  import opened RealArithmetic
  import opened Geometry

  // ---- what the test decides: no axis keeps the triangle and the box apart

  // Half the length of the box's shadow on an axis.
  function Shadow(a: Point, e: Point): real { Abs(a.x) * e.x + Abs(a.y) * e.y + Abs(a.z) * e.z }

  predicate AllBeyond(p: real, q: real, r: real, s: real) {
    (p > s && q > s && r > s) || (p < -s && q < -s && r < -s)
  }

  // The shadows of the triangle and of the box on the axis are disjoint.
  predicate Separates(a: Point, b: Box, t: Triangle) {
    AllBeyond(a.Dot(t.v0.Minus(b.center)), a.Dot(t.v1.Minus(b.center)), a.Dot(t.v2.Minus(b.center)),
              Shadow(a, b.extents))
  }

  const AXIS_X: Point := Point(1.0, 0.0, 0.0)
  const AXIS_Y: Point := Point(0.0, 1.0, 0.0)
  const AXIS_Z: Point := Point(0.0, 0.0, 1.0)

  function Edge0(t: Triangle): Point { t.v1.Minus(t.v0) }

  function Edge1(t: Triangle): Point { t.v2.Minus(t.v1) }

  function Edge2(t: Triangle): Point { t.v0.Minus(t.v2) }

  predicate EdgeSeparates(edge: Point, b: Box, t: Triangle) {
    Separates(edge.Cross(AXIS_X), b, t) || Separates(edge.Cross(AXIS_Y), b, t) || Separates(edge.Cross(AXIS_Z), b, t)
  }

  predicate SideSeparates(b: Box, t: Triangle) {
    Separates(AXIS_X, b, t) || Separates(AXIS_Y, b, t) || Separates(AXIS_Z, b, t)
  }

  // The triangle and the box overlap on the sides of the box, the triangle's normal and, for the
  // full test, the nine axes perpendicular to a side and an edge.
  predicate Overlap(b: Box, t: Triangle, full: bool) {
    && !SideSeparates(b, t)
    && !Separates(Edge0(t).Cross(Edge1(t)), b, t)
    && (full ==> !EdgeSeparates(Edge0(t), b, t) && !EdgeSeparates(Edge1(t), b, t) && !EdgeSeparates(Edge2(t), b, t))
  }

  // ---- a larger box keeps every overlap

  ghost predicate Within(inner: Box, outer: Box) {
    && Abs(inner.center.x - outer.center.x) <= outer.extents.x - inner.extents.x
    && Abs(inner.center.y - outer.center.y) <= outer.extents.y - inner.extents.y
    && Abs(inner.center.z - outer.center.z) <= outer.extents.z - inner.extents.z
  }

  lemma ShadowOnAxis(a: real, d: real, e: real)
    requires Abs(d) <= e
    ensures -(Abs(a) * e) <= a * d <= Abs(a) * e
  {
    ProductMonotone(Abs(d), e, Abs(a));
    if a >= 0.0 {
      if d >= 0.0 { ProductNonNegative(a, d); } else { ProductNonNegative(a, -d); }
    } else {
      if d >= 0.0 { ProductNonNegative(-a, d); } else { ProductNonNegative(-a, -d); }
    }
  }

  // An offset inside a box stays inside its shadow.
  lemma OffsetInShadow(a: Point, d: Point, e: Point)
    requires Abs(d.x) <= e.x && Abs(d.y) <= e.y && Abs(d.z) <= e.z
    ensures -Shadow(a, e) <= a.Dot(d) <= Shadow(a, e)
  {
    hide Abs;
    ShadowOnAxis(a.x, d.x, e.x);
    ShadowOnAxis(a.y, d.y, e.y);
    ShadowOnAxis(a.z, d.z, e.z);
  }

  lemma ShadowsAdd(a: Point, e: Point, f: Point)
    ensures Shadow(a, e.Minus(f)) == Shadow(a, e) - Shadow(a, f)
  {
    Distributes(Abs(a.x), Abs(a.y), Abs(a.z), e, f);
  }

  lemma Distributes(x: real, y: real, z: real, e: Point, f: Point)
    ensures x * (e.x - f.x) + y * (e.y - f.y) + z * (e.z - f.z) ==
            x * e.x + y * e.y + z * e.z - (x * f.x + y * f.y + z * f.z)
  {
  }

  lemma DotOfDifference(a: Point, p: Point, c: Point, d: Point)
    ensures a.Dot(p.Minus(c)) == a.Dot(p.Minus(d)) + a.Dot(d.Minus(c))
  {
  }

  lemma SeparatesShrinks(a: Point, inner: Box, outer: Box, t: Triangle)
    requires Within(inner, outer) && Separates(a, outer, t)
    ensures Separates(a, inner, t)
  {
    hide Shadow, Point.Dot;
    OffsetInShadow(a, outer.center.Minus(inner.center), outer.extents.Minus(inner.extents));
    ShadowsAdd(a, outer.extents, inner.extents);
    DotOfDifference(a, t.v0, inner.center, outer.center);
    DotOfDifference(a, t.v1, inner.center, outer.center);
    DotOfDifference(a, t.v2, inner.center, outer.center);
  }

  lemma EdgeSeparatesShrinks(edge: Point, inner: Box, outer: Box, t: Triangle)
    requires Within(inner, outer) && EdgeSeparates(edge, outer, t)
    ensures EdgeSeparates(edge, inner, t)
  {
    hide Separates, Point.Cross, Within;
    if Separates(edge.Cross(AXIS_X), outer, t) {
      SeparatesShrinks(edge.Cross(AXIS_X), inner, outer, t);
    } else if Separates(edge.Cross(AXIS_Y), outer, t) {
      SeparatesShrinks(edge.Cross(AXIS_Y), inner, outer, t);
    } else {
      SeparatesShrinks(edge.Cross(AXIS_Z), inner, outer, t);
    }
  }

  lemma SideSeparatesShrinks(inner: Box, outer: Box, t: Triangle)
    requires Within(inner, outer) && SideSeparates(outer, t)
    ensures SideSeparates(inner, t)
  {
    hide Separates, Within;
    if Separates(AXIS_X, outer, t) {
      SeparatesShrinks(AXIS_X, inner, outer, t);
    } else if Separates(AXIS_Y, outer, t) {
      SeparatesShrinks(AXIS_Y, inner, outer, t);
    } else {
      SeparatesShrinks(AXIS_Z, inner, outer, t);
    }
  }

  // Every axis that separates the larger box separates the smaller.
  lemma OverlapMonotone(inner: Box, outer: Box, t: Triangle, full: bool)
    requires Within(inner, outer) && Overlap(inner, t, full)
    ensures Overlap(outer, t, full)
  {
    hide Separates, SideSeparates, EdgeSeparates, Within, Edge0, Edge1, Edge2, Point.Cross;
    if SideSeparates(outer, t) {
      SideSeparatesShrinks(inner, outer, t);
    } else if Separates(Edge0(t).Cross(Edge1(t)), outer, t) {
      SeparatesShrinks(Edge0(t).Cross(Edge1(t)), inner, outer, t);
    } else if full && EdgeSeparates(Edge0(t), outer, t) {
      EdgeSeparatesShrinks(Edge0(t), inner, outer, t);
    } else if full && EdgeSeparates(Edge1(t), outer, t) {
      EdgeSeparatesShrinks(Edge1(t), inner, outer, t);
    } else if full && EdgeSeparates(Edge2(t), outer, t) {
      EdgeSeparatesShrinks(Edge2(t), inner, outer, t);
    }
  }

  // ---- a shared point rules out every separating axis

  function Blend(x: real, y: real, z: real, u: real, v: real): real { x + (y - x) * u + (z - x) * v }

  lemma DotOfAt(a: Point, t: Triangle, c: Point, u: real, v: real)
    ensures a.Dot(At(t, u, v).Minus(c)) ==
            Blend(a.Dot(t.v0.Minus(c)), a.Dot(t.v1.Minus(c)), a.Dot(t.v2.Minus(c)), u, v)
  {
    hide Point.Dot, At, Point.Minus, Point.Plus, Point.Times;
    DotOfEdge(a, t.v1, t.v0, c);
    DotOfEdge(a, t.v2, t.v0, c);
    DotOfCorner(a, t.v0.Minus(c), t.v1.Minus(t.v0), t.v2.Minus(t.v0), u, v);
    AtFromCenter(t, c, u, v);
  }

  lemma DotOfEdge(a: Point, p: Point, q: Point, c: Point)
    ensures a.Dot(p.Minus(c)) - a.Dot(q.Minus(c)) == a.Dot(p.Minus(q))
  {
  }

  lemma AtFromCenter(t: Triangle, c: Point, u: real, v: real)
    ensures At(t, u, v).Minus(c) ==
            t.v0.Minus(c).Plus(t.v1.Minus(t.v0).Times(u)).Plus(t.v2.Minus(t.v0).Times(v))
  {
  }

  lemma DotOfCorner(a: Point, o: Point, p: Point, q: Point, u: real, v: real)
    ensures a.Dot(o.Plus(p.Times(u)).Plus(q.Times(v))) == a.Dot(o) + a.Dot(p) * u + a.Dot(q) * v
  {
  }

  lemma PointInShadow(a: Point, b: Box, p: Point)
    requires InBox(p, b)
    ensures -Shadow(a, b.extents) <= a.Dot(p.Minus(b.center)) <= Shadow(a, b.extents)
  {
    hide Shadow, Point.Dot;
    OffsetOfPoint(b, p);
    hide InBox, Abs;
    OffsetInShadow(a, p.Minus(b.center), b.extents);
  }

  lemma OffsetOfPoint(b: Box, p: Point)
    requires InBox(p, b)
    ensures var d := p.Minus(b.center); Abs(d.x) <= b.extents.x && Abs(d.y) <= b.extents.y && Abs(d.z) <= b.extents.z
  {
  }

  lemma SharedPointNotSeparated(a: Point, b: Box, t: Triangle, u: real, v: real)
    requires Barycentric(u, v) && InBox(At(t, u, v), b)
    ensures !Separates(a, b, t)
  {
    hide Shadow, Point.Dot, Point.Minus, At, InBox, Abs, Barycentric, Blend;
    PointInShadow(a, b, At(t, u, v));
    DotOfAt(a, t, b.center, u, v);
    var s, x, y, z := Shadow(a, b.extents), a.Dot(t.v0.Minus(b.center)), a.Dot(t.v1.Minus(b.center)),
        a.Dot(t.v2.Minus(b.center));
    NotAllBeyond(x, y, z, u, v, s);
  }

  lemma NotAllBeyond(x: real, y: real, z: real, u: real, v: real, s: real)
    requires Barycentric(u, v) && -s <= Blend(x, y, z, u, v) <= s
    ensures !AllBeyond(x, y, z, s)
  {
    if x > s && y > s && z > s {
      var lo := if x < y then (if x < z then x else z) else (if y < z then y else z);
      ConvexAbove(lo, x, y, z, u, v);
    }
    if x < -s && y < -s && z < -s {
      var hi := if x > y then (if x > z then x else z) else (if y > z then y else z);
      ConvexBelow(hi, x, y, z, u, v);
    }
  }

  // The test never rejects a triangle that has a point in the box, degenerate or not.
  lemma NeverSeparatesTouching(b: Box, t: Triangle, u: real, v: real, full: bool)
    requires Barycentric(u, v) && InBox(At(t, u, v), b)
    ensures Overlap(b, t, full)
  {
    hide Separates, At, InBox, Barycentric, Point.Cross, Edge0, Edge1, Edge2;
    forall a: Point ensures !Separates(a, b, t) {
      SharedPointNotSeparated(a, b, t, u, v);
    }
  }

  // ---- boxes apart on a side

  predicate BoxesMeet(a: Box, b: Box) {
    && Abs(a.center.x - b.center.x) <= b.extents.x + a.extents.x
    && Abs(a.center.y - b.center.y) <= b.extents.y + a.extents.y
    && Abs(a.center.z - b.center.z) <= b.extents.z + a.extents.z
  }

  lemma SideDistances(b: Box, t: Triangle)
    ensures Separates(AXIS_X, b, t) ==
            AllBeyond(t.v0.x - b.center.x, t.v1.x - b.center.x, t.v2.x - b.center.x, b.extents.x)
    ensures Separates(AXIS_Y, b, t) ==
            AllBeyond(t.v0.y - b.center.y, t.v1.y - b.center.y, t.v2.y - b.center.y, b.extents.y)
    ensures Separates(AXIS_Z, b, t) ==
            AllBeyond(t.v0.z - b.center.z, t.v1.z - b.center.z, t.v2.z - b.center.z, b.extents.z)
  {
    assert Shadow(AXIS_X, b.extents) == b.extents.x;
    assert Shadow(AXIS_Y, b.extents) == b.extents.y;
    assert Shadow(AXIS_Z, b.extents) == b.extents.z;
  }

  // A triangle in a box that misses the query box is rejected by a side of the query box.
  lemma ApartBoxesSeparate(a: Box, b: Box, t: Triangle, full: bool)
    requires Encloses(b, t) && !BoxesMeet(a, b)
    ensures !Overlap(a, t, full)
  {
    SideDistances(a, t);
  }

  // A triangle in a box inside the query box is accepted.
  lemma ContainedOverlaps(a: Box, b: Box, t: Triangle, full: bool)
    requires Encloses(b, t) && Within(b, a)
    ensures Overlap(a, t, full)
  {
    assert At(t, 0.0, 0.0) == t.v0;
    assert InBox(t.v0, a);
    NeverSeparatesTouching(a, t, 0.0, 0.0, full);
  }
}
