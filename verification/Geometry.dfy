// Points, boxes and triangles over the reals.
module Geometry {
  import opened RealArithmetic

  // The largest finite float.
  const FLT_MAX: real := 340282346638528859811704183484516925440.0

  datatype Point = Point(x: real, y: real, z: real) {
    function Plus(p: Point): Point { Point(x + p.x, y + p.y, z + p.z) }

    function Minus(p: Point): Point { Point(x - p.x, y - p.y, z - p.z) }

    function Times(s: real): Point { Point(x * s, y * s, z * s) }

    function Dot(p: Point): real { x * p.x + y * p.y + z * p.z }

    function Cross(p: Point): Point { Point(y * p.z - z * p.y, z * p.x - x * p.z, x * p.y - y * p.x) }

    function SquareMagnitude(): real { x * x + y * y + z * z }

    function SquareDistance(p: Point): real { Minus(p).SquareMagnitude() }
  }

  function Component(p: Point, axis: nat): real
    requires axis < 3
  {
    if axis == 0 then p.x else if axis == 1 then p.y else p.z
  }

  function Abs(r: real): real { if r < 0.0 then -r else r }

  datatype Triangle = Triangle(v0: Point, v1: Point, v2: Point)

  // The point of the triangle's plane with barycentric coordinates u and v.
  function At(t: Triangle, u: real, v: real): Point {
    t.v0.Plus(t.v1.Minus(t.v0).Times(u)).Plus(t.v2.Minus(t.v0).Times(v))
  }

  ghost predicate Barycentric(u: real, v: real) {
    u >= 0.0 && v >= 0.0 && u + v <= 1.0
  }

  ghost predicate InTriangle(p: Point, t: Triangle) {
    exists u: real, v: real :: Barycentric(u, v) && p == At(t, u, v)
  }

  // A box by its center and half-extents.
  datatype Box = Box(center: Point, extents: Point)

  predicate InBox(p: Point, b: Box) {
    && b.center.x - b.extents.x <= p.x <= b.center.x + b.extents.x
    && b.center.y - b.extents.y <= p.y <= b.center.y + b.extents.y
    && b.center.z - b.extents.z <= p.z <= b.center.z + b.extents.z
  }

  predicate Encloses(b: Box, t: Triangle) {
    InBox(t.v0, b) && InBox(t.v1, b) && InBox(t.v2, b)
  }

  lemma ConvexInInterval(lo: real, hi: real, a: real, b: real, c: real, u: real, v: real)
    requires lo <= a <= hi && lo <= b <= hi && lo <= c <= hi
    requires Barycentric(u, v)
    ensures lo <= a + (b - a) * u + (c - a) * v <= hi
  {
    ConvexAbove(lo, a, b, c, u, v);
    ConvexBelow(hi, a, b, c, u, v);
  }

  // A box holding the corners of a triangle holds all of it.
  lemma EnclosedPoint(b: Box, t: Triangle, u: real, v: real)
    requires Encloses(b, t) && Barycentric(u, v)
    ensures InBox(At(t, u, v), b)
  {
    ConvexInInterval(b.center.x - b.extents.x, b.center.x + b.extents.x, t.v0.x, t.v1.x, t.v2.x, u, v);
    ConvexInInterval(b.center.y - b.extents.y, b.center.y + b.extents.y, t.v0.y, t.v1.y, t.v2.y, u, v);
    ConvexInInterval(b.center.z - b.extents.z, b.center.z + b.extents.z, t.v0.z, t.v1.z, t.v2.z, u, v);
  }
}
