// The triangle-box test as the colliders run it: side intervals, one corner against the plane,
// and two corners on each mixed axis.
module TriangleBoxTest {
  import opened Geometry
  import opened TriangleBox

  predicate PairBeyond(p: real, q: real, s: real) { (p > s && q > s) || (p < -s && q < -s) }

  method FindMinMax(x0: real, x1: real, x2: real) returns (min: real, max: real)
    ensures min <= x0 <= max && min <= x1 <= max && min <= x2 <= max
    ensures min in {x0, x1, x2} && max in {x0, x1, x2}
  {
    min, max := x0, x0;
    if x1 < min { min := x1; }
    if x1 > max { max := x1; }
    if x2 < min { min := x2; }
    if x2 > max { max := x2; }
  }

  // The corners of the box nearest and farthest along the normal decide.
  function Toward(n: real, m: real): real { if n > 0.0 then m else -m }

  lemma NearestAndFarthest(n: Point, m: Point)
    ensures n.Dot(Point(Toward(n.x, m.x), Toward(n.y, m.y), Toward(n.z, m.z))) == Shadow(n, m)
    ensures n.Dot(Point(-Toward(n.x, m.x), -Toward(n.y, m.y), -Toward(n.z, m.z))) == -Shadow(n, m)
  {
    TowardReaches(n.x, m.x);
    TowardReaches(n.y, m.y);
    TowardReaches(n.z, m.z);
    hide Toward, Abs;
  }

  lemma TowardReaches(n: real, m: real)
    ensures n * Toward(n, m) == Abs(n) * m && n * -Toward(n, m) == -(Abs(n) * m)
  {
  }

  method PlaneBoxOverlap(normal: Point, d: real, maxbox: Point) returns (overlap: bool)
    ensures overlap <==> -Shadow(normal, maxbox) <= d <= Shadow(normal, maxbox)
  {
    hide Shadow, Point.Dot;
    var n, m := [normal.x, normal.y, normal.z], [maxbox.x, maxbox.y, maxbox.z];
    var vmin, vmax := [0.0, 0.0, 0.0], [0.0, 0.0, 0.0];
    var q := 0;
    while q <= 2
      invariant 0 <= q <= 3 && |vmin| == 3 && |vmax| == 3
      invariant forall k | 0 <= k < q :: vmax[k] == Toward(n[k], m[k]) && vmin[k] == -vmax[k]
    {
      if n[q] > 0.0 {
        vmin, vmax := vmin[q := -m[q]], vmax[q := m[q]];
      } else {
        vmin, vmax := vmin[q := m[q]], vmax[q := -m[q]];
      }
      q := q + 1;
    }
    var low := normal.Dot(Point(vmin[0], vmin[1], vmin[2]));
    var high := normal.Dot(Point(vmax[0], vmax[1], vmax[2]));
    NearestAndFarthest(normal, maxbox);
    if low + d > 0.0 {
      return false;
    }
    if high + d >= 0.0 {
      return true;
    }
    return false;
  }

  // One mixed axis: the two shadows are put in order and compared with the box's.
  method AxisTest(p: real, q: real, rad: real) returns (overlap: bool)
    ensures overlap == !PairBeyond(p, q, rad)
  {
    var min, max := p, q;
    if min > max {
      var tmp := max;
      max := min;
      min := tmp;
    }
    return !(min > rad || max < -rad);
  }

  // The mixed axes of an edge, each judged by two corners.
  predicate Pairs(edge: Point, e: Point, xp: Point, xq: Point, yp: Point, yq: Point, zp: Point, zq: Point) {
    && !PairBeyond(edge.Cross(AXIS_X).Dot(xp), edge.Cross(AXIS_X).Dot(xq), Shadow(edge.Cross(AXIS_X), e))
    && !PairBeyond(edge.Cross(AXIS_Y).Dot(yp), edge.Cross(AXIS_Y).Dot(yq), Shadow(edge.Cross(AXIS_Y), e))
    && !PairBeyond(edge.Cross(AXIS_Z).Dot(zp), edge.Cross(AXIS_Z).Dot(zq), Shadow(edge.Cross(AXIS_Z), e))
  }

  // The three mixed axes of an edge, each on two corners.
  method EdgeOverlap(edge: Point, xp: Point, xq: Point, yp: Point, yq: Point, zp: Point, zq: Point, extents: Point)
    returns (overlap: bool)
    ensures overlap == Pairs(edge, extents, xp, xq, yp, yq, zp, zq)
  {
    PairsWritten(edge, extents, xp, xq, yp, yq, zp, zq);
    hide PairBeyond, Pairs, Abs, Skew, Joint;
    var fey := Abs(edge.y);
    var fez := Abs(edge.z);
    overlap := AxisTest(Skew(edge.z, xp.y, edge.y, xp.z), Skew(edge.z, xq.y, edge.y, xq.z),
                        Joint(fez, extents.y, fey, extents.z));
    if !overlap { return; }
    var fex := Abs(edge.x);
    overlap := AxisTest(Skew(edge.x, yp.z, edge.z, yp.x), Skew(edge.x, yq.z, edge.z, yq.x),
                        Joint(fez, extents.x, fex, extents.z));
    if !overlap { return; }
    overlap := AxisTest(Skew(edge.y, zp.x, edge.x, zp.y), Skew(edge.y, zq.x, edge.x, zq.y),
                        Joint(fey, extents.x, fex, extents.y));
  }

  lemma MixedAxes(edge: Point, e: Point)
    ensures Shadow(edge.Cross(AXIS_X), e) == Joint(Abs(edge.z), e.y, Abs(edge.y), e.z)
    ensures Shadow(edge.Cross(AXIS_Y), e) == Joint(Abs(edge.z), e.x, Abs(edge.x), e.z)
    ensures Shadow(edge.Cross(AXIS_Z), e) == Joint(Abs(edge.y), e.x, Abs(edge.x), e.y)
  {
    assert edge.Cross(AXIS_X) == Point(0.0, edge.z, -edge.y);
    assert edge.Cross(AXIS_Y) == Point(-edge.z, 0.0, edge.x);
    assert edge.Cross(AXIS_Z) == Point(edge.y, -edge.x, 0.0);
  }

  lemma MixedDots(edge: Point, p: Point, q: Point)
    ensures edge.Cross(AXIS_X).Dot(p) == Skew(edge.z, p.y, edge.y, p.z)
    ensures edge.Cross(AXIS_X).Dot(q) == Skew(edge.z, q.y, edge.y, q.z)
    ensures edge.Cross(AXIS_Y).Dot(p) == Skew(edge.x, p.z, edge.z, p.x)
    ensures edge.Cross(AXIS_Y).Dot(q) == Skew(edge.x, q.z, edge.z, q.x)
    ensures edge.Cross(AXIS_Z).Dot(p) == Skew(edge.y, p.x, edge.x, p.y)
    ensures edge.Cross(AXIS_Z).Dot(q) == Skew(edge.y, q.x, edge.x, q.y)
  {
  }

  // Difference and sum of two products.
  function Skew(a: real, x: real, b: real, y: real): real { a * x - b * y }

  function Joint(a: real, x: real, b: real, y: real): real { a * x + b * y }

  lemma PairsWritten(edge: Point, e: Point, xp: Point, xq: Point, yp: Point, yq: Point, zp: Point, zq: Point)
    ensures var fex, fey, fez := Abs(edge.x), Abs(edge.y), Abs(edge.z);
            Pairs(edge, e, xp, xq, yp, yq, zp, zq) <==>
            && !PairBeyond(Skew(edge.z, xp.y, edge.y, xp.z), Skew(edge.z, xq.y, edge.y, xq.z),
                           Joint(fez, e.y, fey, e.z))
            && !PairBeyond(Skew(edge.x, yp.z, edge.z, yp.x), Skew(edge.x, yq.z, edge.z, yq.x),
                           Joint(fez, e.x, fex, e.z))
            && !PairBeyond(Skew(edge.y, zp.x, edge.x, zp.y), Skew(edge.y, zq.x, edge.x, zq.y),
                           Joint(fey, e.x, fex, e.y))
  {
    hide PairBeyond, Shadow, Point.Cross, Point.Dot, Abs, Skew, Joint;
    MixedAxes(edge, e);
    MixedDots(edge, xp, xq);
    MixedDots(edge, yp, yq);
    MixedDots(edge, zp, zq);
  }

  // Both ends of an edge cast the same shadow on an axis perpendicular to it.
  lemma EdgeEndsTie(edge: Point, k: Point, p: Point, q: Point)
    requires edge == q.Minus(p)
    ensures edge.Cross(k).Dot(p) == edge.Cross(k).Dot(q)
  {
    assert edge.Cross(k).Dot(edge) == 0.0;
    DotSplits(edge.Cross(k), q, p);
  }

  lemma DotSplits(a: Point, q: Point, p: Point)
    ensures a.Dot(q.Minus(p)) == a.Dot(q) - a.Dot(p)
  {
  }

  // Every corner of a triangle casts the same shadow on its normal.
  lemma PlaneTies(v0: Point, v1: Point, v2: Point)
    ensures var n := v1.Minus(v0).Cross(v2.Minus(v1)); n.Dot(v1) == n.Dot(v0) && n.Dot(v2) == n.Dot(v0)
  {
    var e0, e1 := v1.Minus(v0), v2.Minus(v1);
    var n := e0.Cross(e1);
    assert n.Dot(e0) == 0.0;
    assert n.Dot(e1) == 0.0;
    DotSplits(n, v1, v0);
    DotSplits(n, v2, v1);
  }

  lemma EdgesOfMoved(t: Triangle, c: Point)
    ensures t.v1.Minus(c).Minus(t.v0.Minus(c)) == Edge0(t)
    ensures t.v2.Minus(c).Minus(t.v1.Minus(c)) == Edge1(t)
    ensures t.v0.Minus(c).Minus(t.v2.Minus(c)) == Edge2(t)
  {
  }

  // ---- each mixed-axis test on two corners decides for all three

  lemma PairSeparates(a: Point, b: Box, t: Triangle, p: real, q: real)
    requires var d0, d1, d2 := a.Dot(t.v0.Minus(b.center)), a.Dot(t.v1.Minus(b.center)), a.Dot(t.v2.Minus(b.center));
             (d0 == d1 == p && d2 == q) || (d0 == p && d1 == d2 == q) || (d0 == d2 == p && d1 == q)
             || (d1 == p && d0 == d2 == q)
    ensures Separates(a, b, t) == PairBeyond(p, q, Shadow(a, b.extents))
  {
  }

  lemma Edge0Decides(k: Point, b: Box, t: Triangle)
    ensures var a := Edge0(t).Cross(k); var c := b.center;
            && Separates(a, b, t) == PairBeyond(a.Dot(t.v0.Minus(c)), a.Dot(t.v2.Minus(c)), Shadow(a, b.extents))
            && Separates(a, b, t) == PairBeyond(a.Dot(t.v1.Minus(c)), a.Dot(t.v2.Minus(c)), Shadow(a, b.extents))
  {
    EdgesOfMoved(t, b.center);
    EdgeEndsTie(Edge0(t), k, t.v0.Minus(b.center), t.v1.Minus(b.center));
    hide Edge0, Point.Dot, Point.Cross, Point.Minus, Separates, PairBeyond;
    var a := Edge0(t).Cross(k);
    PairSeparates(a, b, t, a.Dot(t.v0.Minus(b.center)), a.Dot(t.v2.Minus(b.center)));
  }

  lemma Edge1Decides(k: Point, b: Box, t: Triangle)
    ensures var a := Edge1(t).Cross(k); var c := b.center;
            && Separates(a, b, t) == PairBeyond(a.Dot(t.v0.Minus(c)), a.Dot(t.v2.Minus(c)), Shadow(a, b.extents))
            && Separates(a, b, t) == PairBeyond(a.Dot(t.v0.Minus(c)), a.Dot(t.v1.Minus(c)), Shadow(a, b.extents))
  {
    EdgesOfMoved(t, b.center);
    EdgeEndsTie(Edge1(t), k, t.v1.Minus(b.center), t.v2.Minus(b.center));
    hide Edge1, Point.Dot, Point.Cross, Point.Minus, Separates, PairBeyond;
    var a := Edge1(t).Cross(k);
    PairSeparates(a, b, t, a.Dot(t.v0.Minus(b.center)), a.Dot(t.v2.Minus(b.center)));
  }

  lemma Edge2Decides(k: Point, b: Box, t: Triangle)
    ensures var a := Edge2(t).Cross(k); var c := b.center;
            && Separates(a, b, t) == PairBeyond(a.Dot(t.v0.Minus(c)), a.Dot(t.v1.Minus(c)), Shadow(a, b.extents))
            && Separates(a, b, t) == PairBeyond(a.Dot(t.v1.Minus(c)), a.Dot(t.v2.Minus(c)), Shadow(a, b.extents))
  {
    EdgesOfMoved(t, b.center);
    EdgeEndsTie(Edge2(t), k, t.v2.Minus(b.center), t.v0.Minus(b.center));
    hide Edge2, Point.Dot, Point.Cross, Point.Minus, Separates, PairBeyond;
    var a := Edge2(t).Cross(k);
    PairSeparates(a, b, t, a.Dot(t.v0.Minus(b.center)), a.Dot(t.v1.Minus(b.center)));
  }

  lemma SidesDecide(b: Box, t: Triangle, e: Point, v0: Point, v1: Point, v2: Point)
    requires v0 == t.v0.Minus(b.center) && v1 == t.v1.Minus(b.center) && v2 == t.v2.Minus(b.center) && e == b.extents
    ensures SideSeparates(b, t) <==>
            AllBeyond(v0.x, v1.x, v2.x, e.x) || AllBeyond(v0.y, v1.y, v2.y, e.y) || AllBeyond(v0.z, v1.z, v2.z, e.z)
  {
    SideDistances(b, t);
  }

  lemma PlaneDecides(b: Box, t: Triangle, normal: Point, d: real)
    requires normal == Edge0(t).Cross(Edge1(t)) && d == -normal.Dot(t.v0.Minus(b.center))
    ensures Separates(normal, b, t) <==> !(-Shadow(normal, b.extents) <= d <= Shadow(normal, b.extents))
  {
    EdgesOfMoved(t, b.center);
    PlaneTies(t.v0.Minus(b.center), t.v1.Minus(b.center), t.v2.Minus(b.center));
    hide Point.Dot, Point.Cross, Point.Minus, Edge0, Edge1, Shadow;
  }

  lemma NegatedNormal(n: Point, v: Point)
    ensures Point(-n.x, -n.y, -n.z).Dot(v) == -n.Dot(v)
  {
  }

  // The sides of the box, against the box of the triangle.
  method SidesOverlap(v0: Point, v1: Point, v2: Point, e: Point) returns (overlap: bool)
    ensures !overlap <==>
            AllBeyond(v0.x, v1.x, v2.x, e.x) || AllBeyond(v0.y, v1.y, v2.y, e.y) || AllBeyond(v0.z, v1.z, v2.z, e.z)
  {
    var min, max := FindMinMax(v0.x, v1.x, v2.x);
    if min > e.x || max < -e.x { return false; }
    min, max := FindMinMax(v0.y, v1.y, v2.y);
    if min > e.y || max < -e.y { return false; }
    min, max := FindMinMax(v0.z, v1.z, v2.z);
    return !(min > e.z || max < -e.z);
  }

  // The whole test, for a box anywhere; the colliders differ only in where box and corners come from.
  method TriBoxOverlap(t: Triangle, center: Point, extents: Point, full: bool) returns (overlap: bool)
    ensures overlap == Overlap(Box(center, extents), t, full)
  {
    ghost var b := Box(center, extents);
    var v0, v1, v2 := t.v0.Minus(center), t.v1.Minus(center), t.v2.Minus(center);
    SidesDecide(b, t, extents, v0, v1, v2);
    EdgesOfMoved(t, center);
    hide AllBeyond, Separates, SideSeparates, EdgeSeparates, Edge0, Edge1, Edge2, Point.Minus, Point.Cross, Point.Dot,
         Shadow, PairBeyond, Pairs;
    overlap := SidesOverlap(v0, v1, v2, extents);
    if !overlap { return; }
    var e0 := v1.Minus(v0);
    var e1 := v2.Minus(v1);
    var normal := e0.Cross(e1);
    var d := Point(-normal.x, -normal.y, -normal.z).Dot(v0);
    NegatedNormal(normal, v0);
    PlaneDecides(b, t, normal, d);
    overlap := PlaneBoxOverlap(normal, d, extents);
    if !overlap { return; }
    if full {
      EdgesDecide(b, t);
      overlap := EdgeOverlap(e0, v0, v2, v0, v2, v1, v2, extents);
      if !overlap { return; }
      overlap := EdgeOverlap(e1, v0, v2, v0, v2, v0, v1, extents);
      if !overlap { return; }
      var e2 := t.v0.Minus(t.v2);
      assert e2 == Edge2(t) by { EdgeTwo(t); }
      overlap := EdgeOverlap(e2, v0, v1, v0, v1, v1, v2, extents);
    }
  }

  lemma EdgeTwo(t: Triangle)
    ensures t.v0.Minus(t.v2) == Edge2(t)
  {
  }

  lemma EdgesDecide(b: Box, t: Triangle)
    ensures var v0, v1, v2 := t.v0.Minus(b.center), t.v1.Minus(b.center), t.v2.Minus(b.center);
            && EdgeSeparates(Edge0(t), b, t) == !Pairs(Edge0(t), b.extents, v0, v2, v0, v2, v1, v2)
            && EdgeSeparates(Edge1(t), b, t) == !Pairs(Edge1(t), b.extents, v0, v2, v0, v2, v0, v1)
            && EdgeSeparates(Edge2(t), b, t) == !Pairs(Edge2(t), b.extents, v0, v1, v0, v1, v1, v2)
  {
    hide Separates, Point.Minus, Point.Cross, Point.Dot, Shadow, PairBeyond, Edge0, Edge1, Edge2;
    Edge0Decides(AXIS_X, b, t);
    Edge0Decides(AXIS_Y, b, t);
    Edge0Decides(AXIS_Z, b, t);
    Edge1Decides(AXIS_X, b, t);
    Edge1Decides(AXIS_Y, b, t);
    Edge1Decides(AXIS_Z, b, t);
    Edge2Decides(AXIS_X, b, t);
    Edge2Decides(AXIS_Y, b, t);
    Edge2Decides(AXIS_Z, b, t);
  }
}
