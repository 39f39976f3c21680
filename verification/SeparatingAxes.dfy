// Conditions on a point of the triangle's plane to lie in the triangle and in the box, and how
// a combination of them that cannot be met turns into a separating axis.
module SeparatingAxes {
  import opened RealArithmetic
  import opened Geometry
  import opened RigidTransforms
  import opened HalfPlanes
  import opened HalfPlaneTriples
  import opened TriangleBox

  // What a point of the triangle's plane must satisfy: a face of the box, on either side, and an
  // edge of the triangle, numbered by the corner across from it.
  datatype Side = Face(axis: nat, up: bool) | Edge(corner: nat)

  predicate ValidSide(s: Side) { if s.Face? then s.axis < 3 else s.corner < 3 }

  function UnitAxis(i: nat): Point
    requires i < 3
  {
    if i == 0 then AXIS_X else if i == 1 then AXIS_Y else AXIS_Z
  }

  function Sign(up: bool): real { if up then 1.0 else -1.0 }

  // The corners as seen from the center of the box.
  function Seen(b: Box, t: Triangle): Triangle {
    Triangle(t.v0.Minus(b.center), t.v1.Minus(b.center), t.v2.Minus(b.center))
  }

  // The direction a face pushes in, and how far out it lies.
  function Push(s: Side): Point
    requires ValidSide(s)
  {
    if s.Face? then UnitAxis(s.axis).Times(Sign(s.up)) else Point(0.0, 0.0, 0.0)
  }

  function Reach(s: Side, e: Point): real
    requires ValidSide(s)
  {
    if s.Face? then Component(e, s.axis) else 0.0
  }

  // The condition in barycentric coordinates.
  function Half(s: Side, r: Triangle, e: Point): HalfPlane
    requires ValidSide(s)
  {
    match s
    case Face(_, _) =>
      HalfPlane(-Push(s).Dot(Edge0(r)), Push(s).Dot(Edge2(r)), Reach(s, e) - Push(s).Dot(r.v0))
    case Edge(k) =>
      if k == 0 then HalfPlane(-1.0, -1.0, 1.0) else if k == 1 then HalfPlane(1.0, 0.0, 0.0)
        else HalfPlane(0.0, 1.0, 0.0)
  }

  // ---- a combination of conditions that cannot be met is a separating axis

  function Combined(s: Side, s': Side, s'': Side, w: Point): Point
    requires ValidSide(s) && ValidSide(s') && ValidSide(s'')
  {
    Matrix3(Push(s), Push(s'), Push(s'')).Apply(w)
  }

  predicate NonNegative(w: Point) { w.x >= 0.0 && w.y >= 0.0 && w.z >= 0.0 }

  // No condition is weaker at a corner than the face alone would make it.
  lemma AtCorners(s: Side, r: Triangle, e: Point)
    requires ValidSide(s)
    ensures var h := Half(s, r, e);
            && h.c >= Reach(s, e) - Push(s).Dot(r.v0)
            && h.a + h.c >= Reach(s, e) - Push(s).Dot(r.v1)
            && h.b + h.c >= Reach(s, e) - Push(s).Dot(r.v2)
  {
    DotOfMinus(Push(s), r.v1, r.v0);
    DotOfMinus(Push(s), r.v0, r.v2);
    ZeroDot(r.v0);
    ZeroDot(r.v1);
    ZeroDot(r.v2);
    hide Point.Dot;
  }

  lemma DotOfMinus(a: Point, p: Point, q: Point)
    ensures a.Dot(p.Minus(q)) == a.Dot(p) - a.Dot(q)
  {
  }

  lemma ZeroDot(p: Point)
    ensures Point(0.0, 0.0, 0.0).Dot(p) == 0.0
  {
  }

  lemma WeightedMonotone(w: Point, a: real, b: real, c: real, a': real, b': real, c': real)
    requires NonNegative(w) && a >= a' && b >= b' && c >= c'
    ensures Weighted(w, a, b, c) >= Weighted(w, a', b', c')
  {
    ProductNonNegative(w.x, a - a');
    ProductNonNegative(w.y, b - b');
    ProductNonNegative(w.z, c - c');
    WeightedDifference(w, a, b, c, a', b', c');
  }

  lemma WeightedDifference(w: Point, a: real, b: real, c: real, a': real, b': real, c': real)
    ensures Weighted(w, a, b, c) - Weighted(w, a', b', c') == w.x * (a - a') + w.y * (b - b') + w.z * (c - c')
  {
  }

  lemma WeightedSum(w: Point, a: real, b: real, c: real, a': real, b': real, c': real)
    ensures Weighted(w, a + a', b + b', c + c') == Weighted(w, a, b, c) + Weighted(w, a', b', c')
    ensures Weighted(w, a - a', b - b', c - c') == Weighted(w, a, b, c) - Weighted(w, a', b', c')
  {
  }

  // The shadow of a combination is no longer than the combined reaches.
  lemma ShadowOfCombined(s: Side, s': Side, s'': Side, w: Point, e: Point)
    requires ValidSide(s) && ValidSide(s') && ValidSide(s'') && NonNegative(w) && NonNegative(e)
    ensures Shadow(Combined(s, s', s'', w), e) <= Weighted(w, Reach(s, e), Reach(s', e), Reach(s'', e))
  {
    hide Push, Shadow, Reach, Point.Times, Point.Plus, Combined, Weighted;
    var p, p', p'' := Push(s).Times(w.x), Push(s').Times(w.y), Push(s'').Times(w.z);
    ShadowOfPush(s, w.x, e);
    ShadowOfPush(s', w.y, e);
    ShadowOfPush(s'', w.z, e);
    CombinedIs(s, s', s'', w);
    hide NonNegative;
    ShadowOfSum(p, p', e);
    ShadowOfSum(p.Plus(p'), p'', e);
    WeightedIs(w, Reach(s, e), Reach(s', e), Reach(s'', e), Shadow(p, e), Shadow(p', e), Shadow(p'', e));
  }

  lemma CombinedIs(s: Side, s': Side, s'': Side, w: Point)
    requires ValidSide(s) && ValidSide(s') && ValidSide(s'')
    ensures Combined(s, s', s'', w) == Push(s).Times(w.x).Plus(Push(s').Times(w.y)).Plus(Push(s'').Times(w.z))
  {
    hide Push;
  }

  lemma WeightedIs(w: Point, a: real, b: real, c: real, x: real, y: real, z: real)
    requires x == w.x * a && y == w.y * b && z == w.z * c
    ensures Weighted(w, a, b, c) == x + y + z
  {
  }

  // The shadow on one side of the box.
  function SideShadow(a: real, e: real): real { Abs(a) * e }

  lemma ShadowBySides(a: Point, e: Point)
    ensures Shadow(a, e) == SideShadow(a.x, e.x) + SideShadow(a.y, e.y) + SideShadow(a.z, e.z)
  {
  }

  lemma ShadowOfSum(p: Point, q: Point, e: Point)
    requires NonNegative(e)
    ensures Shadow(p.Plus(q), e) <= Shadow(p, e) + Shadow(q, e)
  {
    ShadowBySides(p, e);
    ShadowBySides(q, e);
    ShadowBySides(p.Plus(q), e);
    hide Shadow, SideShadow;
    SumShadow(p.x, q.x, e.x);
    SumShadow(p.y, q.y, e.y);
    SumShadow(p.z, q.z, e.z);
  }

  lemma SumShadow(p: real, q: real, e: real)
    requires e >= 0.0
    ensures SideShadow(p + q, e) <= SideShadow(p, e) + SideShadow(q, e)
  {
    ProductMonotone(Abs(p + q), Abs(p) + Abs(q), e);
    assert (Abs(p) + Abs(q)) * e == Abs(p) * e + Abs(q) * e;
  }

  lemma ShadowOfPush(s: Side, w: real, e: Point)
    requires ValidSide(s) && w >= 0.0
    ensures Shadow(Push(s).Times(w), e) == w * Reach(s, e)
  {
    var p := Push(s).Times(w);
    if s.Face? {
      PushComponents(s, w);
      hide Push, Point.Times;
      assert Abs(Sign(s.up) * w) == w;
    } else {
      assert p == Point(0.0, 0.0, 0.0);
      hide Push, Point.Times;
    }
  }

  lemma PushComponents(s: Side, w: real)
    requires s.Face? && ValidSide(s)
    ensures var p := Push(s).Times(w);
            && p.x == (if s.axis == 0 then Sign(s.up) * w else 0.0)
            && p.y == (if s.axis == 1 then Sign(s.up) * w else 0.0)
            && p.z == (if s.axis == 2 then Sign(s.up) * w else 0.0)
  {
  }

  lemma BeyondAllCorners(m: Point, b: Box, t: Triangle, reach: real)
    requires Shadow(m, b.extents) <= reach
    requires m.Dot(Seen(b, t).v0) > reach && m.Dot(Seen(b, t).v1) > reach && m.Dot(Seen(b, t).v2) > reach
    ensures Separates(m, b, t)
  {
    hide Shadow, Point.Dot;
  }

  lemma CertificateSeparates(b: Box, t: Triangle, s: Side, s': Side, s'': Side, w: Point)
    requires ValidSide(s) && ValidSide(s') && ValidSide(s'') && NonNegative(w) && NonNegative(b.extents)
    requires var r, e := Seen(b, t), b.extents; var h, h', h'' := Half(s, r, e), Half(s', r, e), Half(s'', r, e);
             Weighted(w, h.a, h'.a, h''.a) == 0.0 && Weighted(w, h.b, h'.b, h''.b) == 0.0
               && Weighted(w, h.c, h'.c, h''.c) < 0.0
    ensures Separates(Combined(s, s', s'', w), b, t)
  {
    hide Half, Push, Reach, Shadow, Point.Dot, Weighted, Combined, NonNegative, Separates, Seen;
    var e := b.extents;
    CornersBeyond(s, s', s'', w, Seen(b, t), e);
    ShadowOfCombined(s, s', s'', w, e);
    BeyondAllCorners(Combined(s, s', s'', w), b, t, Weighted(w, Reach(s, e), Reach(s', e), Reach(s'', e)));
  }

  lemma CornersBeyond(s: Side, s': Side, s'': Side, w: Point, r: Triangle, e: Point)
    requires ValidSide(s) && ValidSide(s') && ValidSide(s'') && NonNegative(w)
    requires var h, h', h'' := Half(s, r, e), Half(s', r, e), Half(s'', r, e);
             Weighted(w, h.a, h'.a, h''.a) == 0.0 && Weighted(w, h.b, h'.b, h''.b) == 0.0
               && Weighted(w, h.c, h'.c, h''.c) < 0.0
    ensures var m, reach := Combined(s, s', s'', w), Weighted(w, Reach(s, e), Reach(s', e), Reach(s'', e));
            m.Dot(r.v0) > reach && m.Dot(r.v1) > reach && m.Dot(r.v2) > reach
  {
    hide Half, Push, Reach, Point.Dot, Weighted, Combined, NonNegative;
    var h, h', h'' := Half(s, r, e), Half(s', r, e), Half(s'', r, e);
    AtCorners(s, r, e);
    AtCorners(s', r, e);
    AtCorners(s'', r, e);
    WeightedSum(w, h.a, h'.a, h''.a, h.c, h'.c, h''.c);
    WeightedSum(w, h.b, h'.b, h''.b, h.c, h'.c, h''.c);
    BeyondAtCorner(s, s', s'', w, e, r.v0, h.c, h'.c, h''.c);
    BeyondAtCorner(s, s', s'', w, e, r.v1, h.a + h.c, h'.a + h'.c, h''.a + h''.c);
    BeyondAtCorner(s, s', s'', w, e, r.v2, h.b + h.c, h'.b + h'.c, h''.b + h''.c);
  }

  lemma BeyondAtCorner(s: Side, s': Side, s'': Side, w: Point, e: Point, v: Point, g: real, g': real, g'': real)
    requires ValidSide(s) && ValidSide(s') && ValidSide(s'') && NonNegative(w)
    requires g >= Reach(s, e) - Push(s).Dot(v) && g' >= Reach(s', e) - Push(s').Dot(v)
             && g'' >= Reach(s'', e) - Push(s'').Dot(v)
    requires Weighted(w, g, g', g'') < 0.0
    ensures Combined(s, s', s'', w).Dot(v) > Weighted(w, Reach(s, e), Reach(s', e), Reach(s'', e))
  {
    hide Push, Reach, Point.Dot, Weighted, Matrix3.Apply, NonNegative;
    AgainstRow(Matrix3(Push(s), Push(s'), Push(s'')), w, v);
    WeightedMonotone(w, g, g', g'', Reach(s, e) - Push(s).Dot(v), Reach(s', e) - Push(s').Dot(v),
                     Reach(s'', e) - Push(s'').Dot(v));
    WeightedSum(w, Reach(s, e), Reach(s', e), Reach(s'', e), Push(s).Dot(v), Push(s').Dot(v), Push(s'').Dot(v));
  }

  // ---- a multiple of an axis separates only if the axis does

  lemma MultipleSeparates(a: Point, c: real, b: Box, t: Triangle)
    requires Separates(a.Times(c), b, t)
    ensures c != 0.0 && Separates(a, b, t)
  {
    var r := Seen(b, t);
    ScaledDot(a, c, r.v0);
    ScaledDot(a, c, r.v1);
    ScaledDot(a, c, r.v2);
    ScaledShadow(a, c, b.extents);
    hide Shadow, Point.Dot, Point.Times, Abs;
    ScaledBeyond(a.Dot(r.v0), a.Dot(r.v1), a.Dot(r.v2), Shadow(a, b.extents), c);
  }

  lemma ScaledDot(a: Point, c: real, p: Point)
    ensures a.Times(c).Dot(p) == c * a.Dot(p)
  {
  }

  lemma ScaledShadow(a: Point, c: real, e: Point)
    ensures Shadow(a.Times(c), e) == Mul(Abs(c), Shadow(a, e))
  {
    hide Shadow, SideShadow, Abs, Mul;
    var q := a.Times(c);
    ShadowBySides(a, e);
    ShadowBySides(q, e);
    AbsOfScaled(a.x, c, e.x, q.x);
    AbsOfScaled(a.y, c, e.y, q.y);
    AbsOfScaled(a.z, c, e.z, q.z);
    hide Point.Times;
    Distributes3(Abs(c), SideShadow(a.x, e.x), SideShadow(a.y, e.y), SideShadow(a.z, e.z), Shadow(a, e));
  }

  lemma Distributes3(k: real, x: real, y: real, z: real, sum: real)
    requires sum == x + y + z
    ensures Mul(k, sum) == Mul(k, x) + Mul(k, y) + Mul(k, z)
  {
  }

  lemma AbsOfScaled(a: real, c: real, e: real, q: real)
    requires q == a * c
    ensures SideShadow(q, e) == Mul(Abs(c), SideShadow(a, e))
  {
    if a >= 0.0 {
      if c >= 0.0 { ProductNonNegative(a, c); } else { ProductNonNegative(a, -c); }
    } else {
      if c >= 0.0 { ProductNonNegative(-a, c); } else { ProductNonNegative(-a, -c); }
    }
    assert Abs(q) == Abs(c) * Abs(a);
    assert (Abs(c) * Abs(a)) * e == Abs(c) * (Abs(a) * e);
  }

  lemma ScaledBeyond(x: real, y: real, z: real, s: real, c: real)
    requires AllBeyond(c * x, c * y, c * z, Mul(Abs(c), s))
    ensures c != 0.0 && AllBeyond(x, y, z, s)
  {
    if c > 0.0 {
      UnscaleSides(x, s, c);
      UnscaleSides(y, s, c);
      UnscaleSides(z, s, c);
    } else if c < 0.0 {
      UnscaleTurned(x, s, c);
      UnscaleTurned(y, s, c);
      UnscaleTurned(z, s, c);
    }
  }

  lemma UnscaleSides(x: real, s: real, c: real)
    requires c > 0.0
    ensures c * x > Abs(c) * s ==> x > s
    ensures c * x < -(Abs(c) * s) ==> x < -s
  {
    Unscale(x, s, c);
    Unscale(-x, s, c);
  }

  lemma UnscaleTurned(x: real, s: real, c: real)
    requires c < 0.0
    ensures c * x > Abs(c) * s ==> x < -s
    ensures c * x < -(Abs(c) * s) ==> x > s
  {
    assert -c * -x == c * x && -c * x == -(c * x);
    Unscale(x, s, -c);
    Unscale(-x, s, -c);
  }

  lemma Unscale(x: real, s: real, c: real)
    requires c > 0.0
    ensures c * x > c * s ==> x > s
  {
    if x <= s {
      ProductMonotone(x, s, c);
      assert c * x == x * c && c * s == s * c;
    }
  }

  // ---- which combinations a separating test rules out

  lemma SideBlocks(b: Box, t: Triangle, i: nat, c: real)
    requires i < 3 && Separates(UnitAxis(i).Times(c), b, t)
    ensures !Overlap(b, t, true)
  {
    hide Separates, Point.Times;
    MultipleSeparates(UnitAxis(i), c, b, t);
  }

  function EdgeAcross(t: Triangle, corner: nat): Point {
    if corner == 0 then Edge1(t) else if corner == 1 then Edge2(t) else Edge0(t)
  }

  // A vector without a component along one side and perpendicular to an edge is a multiple of
  // their cross product.
  lemma AlongCross(m: Point, d: Point, k: nat) returns (c: real)
    requires k < 3 && Component(m, k) == 0.0 && m.Dot(d) == 0.0
    requires d.Cross(UnitAxis(k)) != Point(0.0, 0.0, 0.0)
    ensures m == d.Cross(UnitAxis(k)).Times(c)
  {
    CrossWithUnit(d, k);
    var n := d.Cross(UnitAxis(k));
    if k == 0 {
      DropTerm(m.x, d.x, m.y, d.y, m.z, d.z, m.Dot(d));
      c := Turned(m.y, m.z, d.y, d.z);
    } else if k == 1 {
      DropTerm(m.y, d.y, m.z, d.z, m.x, d.x, m.Dot(d));
      c := Turned(m.z, m.x, d.z, d.x);
    } else {
      DropTerm(m.z, d.z, m.x, d.x, m.y, d.y, m.Dot(d));
      c := Turned(m.x, m.y, d.x, d.y);
    }
    hide Point.Cross;
    ZeroTimes(0.0, c);
  }

  lemma CrossWithUnit(d: Point, k: nat)
    requires k < 3
    ensures d.Cross(UnitAxis(k)) ==
            if k == 0 then Point(0.0, d.z, -d.y) else if k == 1 then Point(-d.z, 0.0, d.x) else Point(d.y, -d.x, 0.0)
  {
    var n := d.Cross(UnitAxis(k));
    if k == 0 {
      assert n.x == 0.0 && n.y == d.z && n.z == -d.y;
    } else if k == 1 {
      assert n.x == -d.z && n.y == 0.0 && n.z == d.x;
    } else {
      assert n.x == d.y && n.y == -d.x && n.z == 0.0;
    }
  }

  lemma DropTerm(x: real, a: real, y: real, b: real, z: real, c: real, sum: real)
    requires x == 0.0 && sum == x * a + y * b + z * c
    ensures sum == y * b + z * c
  {
  }

  // In the plane, a vector perpendicular to (x, y) is a multiple of (y, -x).
  lemma Turned(p: real, q: real, x: real, y: real) returns (c: real)
    requires p * x + q * y == 0.0 && (x != 0.0 || y != 0.0)
    ensures p == y * c && q == -x * c
  {
    if y != 0.0 {
      c := p / y;
      assert y * c == p;
      assert (q + x * c) * y == q * y + x * (y * c);
      ZeroProduct(q + x * c, y);
    } else {
      c := -q / x;
      assert x * c == -q;
      ZeroTimes(y, q);
      ZeroProduct(p, x);
      ZeroTimes(y, c);
    }
  }

  lemma EdgeBlocks(b: Box, t: Triangle, corner: nat, k: nat, m: Point)
    requires corner < 3 && k < 3 && Component(m, k) == 0.0 && m.Dot(EdgeAcross(t, corner)) == 0.0
    requires EdgeAcross(t, corner).Cross(UnitAxis(k)) != Point(0.0, 0.0, 0.0)
    requires Separates(m, b, t)
    ensures !Overlap(b, t, true)
  {
    hide Separates, Point.Cross, Point.Dot, Component, Edge0, Edge1, Edge2, Point.Times;
    var c := AlongCross(m, EdgeAcross(t, corner), k);
    MultipleSeparates(EdgeAcross(t, corner).Cross(UnitAxis(k)), c, b, t);
  }

  // A vector perpendicular to two edges is a multiple of the normal.
  lemma AlongNormal(m: Point, p: Point, q: Point, n: Point) returns (c: real)
    requires m.Dot(p) == 0.0 && m.Dot(q) == 0.0 && n == p.Cross(q) && n != Point(0.0, 0.0, 0.0)
    ensures m == n.Times(c)
  {
    PerpendicularCross(m, p, q);
    TripleProduct(m, n);
    NormalLength(n);
    assert n.Cross(m.Cross(n)) == Point(0.0, 0.0, 0.0) by { CrossOfZero(n); }
    hide Point.Dot, Point.Cross;
    c := m.Dot(n) / n.Dot(n);
    assert c * n.Dot(n) == m.Dot(n);
    DotCommutes(m, n);
    SolveMultiple(m.x, n.x, n.Dot(n), n.Dot(m), c);
    SolveMultiple(m.y, n.y, n.Dot(n), n.Dot(m), c);
    SolveMultiple(m.z, n.z, n.Dot(n), n.Dot(m), c);
  }

  lemma CrossOfZero(n: Point)
    ensures n.Cross(Point(0.0, 0.0, 0.0)) == Point(0.0, 0.0, 0.0)
  {
    var z := n.Cross(Point(0.0, 0.0, 0.0));
    assert z.x == 0.0 && z.y == 0.0 && z.z == 0.0;
  }

  lemma SolveMultiple(m: real, n: real, d: real, e: real, c: real)
    requires d > 0.0 && c * d == e && m * d - n * e == 0.0
    ensures m == n * c
  {
    assert (m - n * c) * d == m * d - n * (c * d);
    ZeroProduct(m - n * c, d);
  }

  lemma NormalLength(n: Point)
    requires n != Point(0.0, 0.0, 0.0)
    ensures n.Dot(n) > 0.0
  {
    assert n.Dot(n) == Sq(n.x) + Sq(n.y) + Sq(n.z);
    hide Sq, Point.Dot;
    SquarePositive(n.x);
    SquarePositive(n.y);
    SquarePositive(n.z);
  }

  // m x (p x q) = p (m.q) - q (m.p).
  lemma PerpendicularCross(m: Point, p: Point, q: Point)
    requires m.Dot(p) == 0.0 && m.Dot(q) == 0.0
    ensures m.Cross(p.Cross(q)) == Point(0.0, 0.0, 0.0)
  {
    CrossExpands(m, p, q);
    TimesZero(p, m.Dot(q));
    TimesZero(q, m.Dot(p));
    hide Point.Dot, Point.Cross, Point.Times;
  }

  lemma TimesZero(p: Point, z: real)
    requires z == 0.0
    ensures p.Times(z) == Point(0.0, 0.0, 0.0)
  {
  }

  lemma CrossExpands(m: Point, p: Point, q: Point)
    ensures m.Cross(p.Cross(q)) == p.Times(m.Dot(q)).Minus(q.Times(m.Dot(p)))
  {
    CrossExpandsTo(m, p, q, p.Cross(q), m.Dot(q), m.Dot(p));
  }

  lemma CrossExpandsTo(m: Point, p: Point, q: Point, n: Point, e: real, f: real)
    requires n == p.Cross(q) && e == m.Dot(q) && f == m.Dot(p)
    ensures m.Cross(n) == p.Times(e).Minus(q.Times(f))
  {
    CrossComponents(p, q);
    CrossComponents(m, n);
    hide Point.Cross;
    ExpandComponent(m.x, m.y, m.z, p.x, p.y, p.z, q.x, q.y, q.z, n.y, n.z, e, f);
    ExpandComponent(m.y, m.z, m.x, p.y, p.z, p.x, q.y, q.z, q.x, n.z, n.x, e, f);
    ExpandComponent(m.z, m.x, m.y, p.z, p.x, p.y, q.z, q.x, q.y, n.x, n.y, e, f);
    hide Point.Dot;
  }

  lemma ExpandComponent(mi: real, mj: real, mk: real, pi: real, pj: real, pk: real, qi: real, qj: real, qk: real,
                        nj: real, nk: real, e: real, f: real)
    requires nj == pk * qi - pi * qk && nk == pi * qj - pj * qi
    requires e == mi * qi + mj * qj + mk * qk && f == mi * pi + mj * pj + mk * pk
    ensures mj * nk - mk * nj == pi * e - qi * f
  {
  }

  lemma NormalBlocks(b: Box, t: Triangle, m: Point)
    requires m.Dot(Edge0(t)) == 0.0 && m.Dot(Edge2(t)) == 0.0
    requires Edge0(t).Cross(Edge1(t)) != Point(0.0, 0.0, 0.0) && Separates(m, b, t)
    ensures !Overlap(b, t, true)
  {
    EdgesSumToZero(t, m);
    hide Separates, Point.Cross, Point.Dot, Edge0, Edge1, Edge2, Point.Times;
    var c := AlongNormal(m, Edge0(t), Edge1(t), Edge0(t).Cross(Edge1(t)));
    MultipleSeparates(Edge0(t).Cross(Edge1(t)), c, b, t);
  }

  lemma EdgesSumToZero(t: Triangle, m: Point)
    ensures m.Dot(Edge1(t)) == -m.Dot(Edge0(t)) - m.Dot(Edge2(t))
  {
    DotOfMinus(m, t.v1, t.v0);
    DotOfMinus(m, t.v2, t.v1);
    DotOfMinus(m, t.v0, t.v2);
    hide Point.Dot;
  }

  lemma SeenEdges(b: Box, t: Triangle)
    ensures Edge0(Seen(b, t)) == Edge0(t) && Edge1(Seen(b, t)) == Edge1(t) && Edge2(Seen(b, t)) == Edge2(t)
  {
  }
}
