// The triangle-box test is exact: it accepts a triangle if and only if some point of it is in the box.
module TriangleBoxExact {
  import opened RealArithmetic
  import opened Geometry
  import opened RigidTransforms
  import opened HalfPlanes
  import opened HalfPlaneTriples
  import opened TriangleBox
  import opened SeparatingAxes

  // ---- the vectors that combinations of the conditions add up to

  predicate OnAxis(s: Side, i: nat) { s.Face? ==> s.axis == i }

  // Faces of one axis and edges combine to a multiple of that axis.
  lemma OneAxis(s: Side, s': Side, s'': Side, w: Point, i: nat) returns (c: real)
    requires ValidSide(s) && ValidSide(s') && ValidSide(s'') && i < 3
    requires (w.x == 0.0 || OnAxis(s, i)) && (w.y == 0.0 || OnAxis(s', i)) && (w.z == 0.0 || OnAxis(s'', i))
    ensures Combined(s, s', s'', w) == UnitAxis(i).Times(c)
  {
    CombinedIs(s, s', s'', w);
    var x := PushOnAxis(s, w.x, i);
    var y := PushOnAxis(s', w.y, i);
    var z := PushOnAxis(s'', w.z, i);
    c := x + y + z;
    SumOfMultiples(UnitAxis(i), x, y, z);
    hide Push, Combined, UnitAxis, Point.Times;
  }

  lemma SumOfMultiples(a: Point, x: real, y: real, z: real)
    ensures a.Times(x).Plus(a.Times(y)).Plus(a.Times(z)) == a.Times(x + y + z)
  {
  }

  lemma PushOnAxis(s: Side, w: real, i: nat) returns (c: real)
    requires ValidSide(s) && i < 3 && (w == 0.0 || OnAxis(s, i))
    ensures Push(s).Times(w) == UnitAxis(i).Times(c)
  {
    if s.Face? && s.axis == i {
      c := Sign(s.up) * w;
      TimesTwice(UnitAxis(i), Sign(s.up), w);
    } else {
      c := 0.0;
      NothingTimes(UnitAxis(i));
      if s.Face? {
        NothingTimes(Push(s));
      } else {
        TimesNothing(w);
      }
    }
  }

  lemma TimesTwice(a: Point, x: real, y: real)
    ensures a.Times(x).Times(y) == a.Times(x * y)
  {
  }

  lemma NothingTimes(a: Point)
    ensures a.Times(0.0) == Point(0.0, 0.0, 0.0)
  {
  }

  lemma TimesNothing(w: real)
    ensures Point(0.0, 0.0, 0.0).Times(w) == Point(0.0, 0.0, 0.0)
  {
  }

  // Along the edges the combination changes as the conditions do.
  lemma CombinedAlong(s: Side, s': Side, s'': Side, w: Point, d: Point)
    requires ValidSide(s) && ValidSide(s') && ValidSide(s'')
    ensures Combined(s, s', s'', w).Dot(d) == Weighted(w, Push(s).Dot(d), Push(s').Dot(d), Push(s'').Dot(d))
  {
    AgainstRow(Matrix3(Push(s), Push(s'), Push(s'')), w, d);
    hide Push, Point.Dot, Weighted, Matrix3.Apply;
  }

  function ThirdAxis(i: nat, j: nat): nat
    requires i < 3 && j < 3 && i != j
  {
    3 - i - j
  }

  // Two faces of different axes never push along the third.
  lemma NoThirdComponent(s: Side, s': Side, s'': Side, w: Point)
    requires ValidSide(s) && ValidSide(s') && ValidSide(s'') && s.Face? && s'.Face? && s.axis != s'.axis && s''.Edge?
    ensures Component(Combined(s, s', s'', w), ThirdAxis(s.axis, s'.axis)) == 0.0
  {
    CombinedIs(s, s', s'', w);
    PushComponents(s, w.x);
    PushComponents(s', w.y);
    TimesNothing(w.z);
    hide Combined, Point.Times;
  }

  // Without extent along both axes, an edge moves neither face.
  lemma FlatEdge(d: Point, s: Side, s': Side)
    requires ValidSide(s) && ValidSide(s') && s.Face? && s'.Face? && s.axis != s'.axis
    requires d.Cross(UnitAxis(ThirdAxis(s.axis, s'.axis))) == Point(0.0, 0.0, 0.0)
    ensures Push(s).Dot(d) == 0.0 && Push(s').Dot(d) == 0.0
  {
    hide Point.Cross, Point.Dot, Push, Sign, UnitAxis;
    CrossWithUnit(d, ThirdAxis(s.axis, s'.axis));
    assert Component(d, s.axis) == 0.0 && Component(d, s'.axis) == 0.0;
    PushDot(s, d);
    PushDot(s', d);
    hide Component;
    ZeroTimes(Component(d, s.axis), Sign(s.up));
    ZeroTimes(Component(d, s'.axis), Sign(s'.up));
  }

  lemma PushDot(s: Side, d: Point)
    requires s.Face? && ValidSide(s)
    ensures Push(s).Dot(d) == Sign(s.up) * Component(d, s.axis)
  {
    var p := Push(s);
    UnitPush(s);
    hide Push;
    PickTerm(p.x, d.x, p.y, d.y, p.z, d.z);
  }

  lemma UnitPush(s: Side)
    requires s.Face? && ValidSide(s)
    ensures var p := Push(s);
            && p.x == (if s.axis == 0 then Sign(s.up) else 0.0)
            && p.y == (if s.axis == 1 then Sign(s.up) else 0.0)
            && p.z == (if s.axis == 2 then Sign(s.up) else 0.0)
  {
  }

  lemma PickTerm(x: real, a: real, y: real, b: real, z: real, c: real)
    ensures y == 0.0 && z == 0.0 ==> x * a + y * b + z * c == x * a
    ensures x == 0.0 && z == 0.0 ==> x * a + y * b + z * c == y * b
    ensures x == 0.0 && y == 0.0 ==> x * a + y * b + z * c == z * c
  {
  }

  // ---- no two conditions exclude each other

  ghost predicate Passes(b: Box, t: Triangle) { NonNegative(b.extents) && Overlap(b, t, true) }

  function HalfOf(s: Side, b: Box, t: Triangle): HalfPlane
    requires ValidSide(s)
  {
    Half(s, Seen(b, t), b.extents)
  }

  // The slopes of a face's condition are its pushes along the edges.
  lemma FaceSlopes(s: Side, b: Box, t: Triangle)
    requires s.Face? && ValidSide(s)
    ensures HalfOf(s, b, t).a == -Push(s).Dot(Edge0(t)) && HalfOf(s, b, t).b == Push(s).Dot(Edge2(t))
  {
    SeenEdges(b, t);
    hide Push, Point.Dot;
  }

  lemma WeightedOfTwo(x: real, y: real, a: real, b: real, c: real)
    ensures Weighted(Point(x, y, 0.0), a, b, c) == x * a + y * b
  {
  }

  lemma OppositeSlope(w: Point, a: real, b: real, c: real, sum: real)
    requires sum == Weighted(w, a, b, c)
    ensures Weighted(w, -a, -b, -c) == -sum
  {
  }

  lemma PairIsOk(b: Box, t: Triangle, s: Side, s': Side)
    requires Passes(b, t) && ValidSide(s) && ValidSide(s')
    ensures PairOk(HalfOf(s, b, t), HalfOf(s', b, t))
  {
    hide HalfOf, Overlap, NonNegative, Cancel2;
    var h, k := HalfOf(s, b, t), HalfOf(s', b, t);
    forall x: real, y: real | Cancel2(h, k, x, y) ensures x * h.c + y * k.c >= 0.0 {
      if x * h.c + y * k.c < 0.0 {
        PairExcluded(b, t, s, s', x, y);
      }
    }
  }

  lemma PairExcluded(b: Box, t: Triangle, s: Side, s': Side, x: real, y: real)
    requires ValidSide(s) && ValidSide(s') && NonNegative(b.extents)
    requires var h, k := HalfOf(s, b, t), HalfOf(s', b, t); Cancel2(h, k, x, y) && x * h.c + y * k.c < 0.0
    ensures !Overlap(b, t, true)
  {
    hide Overlap, Separates, Half, Push, Combined, Weighted, EdgeAcross, Seen, Reach;
    PairSeparates(b, t, s, s', x, y);
    if s.Face? && s'.Face? && s.axis != s'.axis {
      TwoFacesExcluded(b, t, s, s', x, y);
    } else {
      var i := if s.Face? then s.axis else if s'.Face? then s'.axis else 0;
      var c := OneAxis(s, s', Edge(1), Point(x, y, 0.0), i);
      SideBlocks(b, t, i, c);
    }
  }

  // Two conditions are three, with an edge that gets no weight.
  lemma PairSeparates(b: Box, t: Triangle, s: Side, s': Side, x: real, y: real)
    requires ValidSide(s) && ValidSide(s') && NonNegative(b.extents)
    requires var h, k := HalfOf(s, b, t), HalfOf(s', b, t); Cancel2(h, k, x, y) && x * h.c + y * k.c < 0.0
    ensures Separates(Combined(s, s', Edge(1), Point(x, y, 0.0)), b, t)
  {
    hide Overlap, Separates, Half, Push, Combined, Weighted, Seen, Reach;
    var h, k := HalfOf(s, b, t), HalfOf(s', b, t);
    WeightedOfTwo(x, y, h.a, k.a, 1.0);
    WeightedOfTwo(x, y, h.b, k.b, 0.0);
    WeightedOfTwo(x, y, h.c, k.c, 0.0);
    AnyEdge(b, t);
    CertificateSeparates(b, t, s, s', Edge(1), Point(x, y, 0.0));
  }

  lemma AnyEdge(b: Box, t: Triangle)
    ensures HalfOf(Edge(1), b, t) == HalfPlane(1.0, 0.0, 0.0)
  {
  }

  lemma TwoFacesExcluded(b: Box, t: Triangle, s: Side, s': Side, x: real, y: real)
    requires ValidSide(s) && ValidSide(s') && NonNegative(b.extents) && s.Face? && s'.Face? && s.axis != s'.axis
    requires var h, k := HalfOf(s, b, t), HalfOf(s', b, t); Cancel2(h, k, x, y) && x * h.c + y * k.c < 0.0
    requires Separates(Combined(s, s', Edge(1), Point(x, y, 0.0)), b, t)
    ensures !Overlap(b, t, true)
  {
    hide Overlap, Separates, Half, Push, Combined, Weighted, Seen, Reach, Point.Dot, Point.Cross, UnitAxis, Edge0,
         Edge1, Edge2;
    var h, k, w := HalfOf(s, b, t), HalfOf(s', b, t), Point(x, y, 0.0);
    var m, axis := Combined(s, s', Edge(1), w), ThirdAxis(s.axis, s'.axis);
    NoThirdComponent(s, s', Edge(1), w);
    FaceSlopes(s, b, t);
    FaceSlopes(s', b, t);
    CombinedAlong(s, s', Edge(1), w, Edge0(t));
    CombinedAlong(s, s', Edge(1), w, Edge2(t));
    WeightedOfTwo(x, y, Push(s).Dot(Edge0(t)), Push(s').Dot(Edge0(t)), Push(Edge(1)).Dot(Edge0(t)));
    WeightedOfTwo(x, y, Push(s).Dot(Edge2(t)), Push(s').Dot(Edge2(t)), Push(Edge(1)).Dot(Edge2(t)));
    NegatedSum(x, y, Push(s).Dot(Edge0(t)), Push(s').Dot(Edge0(t)), h.a, k.a);
    assert m.Dot(EdgeAcross(t, 2)) == 0.0 && m.Dot(EdgeAcross(t, 1)) == 0.0;
    if EdgeAcross(t, 2).Cross(UnitAxis(axis)) != Point(0.0, 0.0, 0.0) {
      EdgeBlocks(b, t, 2, axis, m);
    } else if EdgeAcross(t, 1).Cross(UnitAxis(axis)) != Point(0.0, 0.0, 0.0) {
      EdgeBlocks(b, t, 1, axis, m);
    } else {
      FlatEdge(Edge0(t), s, s');
      FlatEdge(Edge2(t), s, s');
      OneNegative(x, h.c, y, k.c);
      if h.c < 0.0 {
        FaceExcluded(b, t, s);
      } else {
        FaceExcluded(b, t, s');
      }
    }
  }

  lemma NegatedSum(x: real, y: real, p: real, q: real, a: real, b: real)
    requires a == -p && b == -q
    ensures x * a + y * b == -(x * p + y * q)
  {
  }

  lemma OneNegative(x: real, c: real, y: real, d: real)
    requires x >= 0.0 && y >= 0.0 && x * c + y * d < 0.0
    ensures c < 0.0 || d < 0.0
  {
    if c >= 0.0 && d >= 0.0 {
      ProductNonNegative(x, c);
      ProductNonNegative(y, d);
    }
  }

  // A face beyond the whole triangle.
  lemma FaceExcluded(b: Box, t: Triangle, s: Side)
    requires ValidSide(s) && NonNegative(b.extents) && s.Face?
    requires HalfOf(s, b, t).a == 0.0 && HalfOf(s, b, t).b == 0.0 && HalfOf(s, b, t).c < 0.0
    ensures !Overlap(b, t, true)
  {
    hide Overlap, Separates, Half, Push, Combined, Weighted, Seen, Reach;
    var h, w := HalfOf(s, b, t), Point(1.0, 0.0, 0.0);
    WeightedOfTwo(1.0, 0.0, h.a, h.a, h.a);
    WeightedOfTwo(1.0, 0.0, h.b, h.b, h.b);
    WeightedOfTwo(1.0, 0.0, h.c, h.c, h.c);
    CertificateSeparates(b, t, s, s, s, w);
    var c := OneAxis(s, s, s, w, s.axis);
    SideBlocks(b, t, s.axis, c);
  }

  // ---- nor do three

  // The weights under which three conditions cancel.
  function Weights(h: HalfPlane, k: HalfPlane, l: HalfPlane, sign: real): Point {
    Point(sign * Det(k, l), sign * Det(l, h), sign * Det(h, k))
  }

  lemma WeightsCancel(h: HalfPlane, k: HalfPlane, l: HalfPlane, sign: real)
    ensures var w := Weights(h, k, l, sign);
            && Weighted(w, h.a, k.a, l.a) == 0.0 && Weighted(w, h.b, k.b, l.b) == 0.0
            && Weighted(w, h.c, k.c, l.c) == sign * Rest(h, k, l)
  {
    CramerIdentity(h, k, l);
    var d1, d2, d3 := Det(k, l), Det(l, h), Det(h, k);
    var rest := Rest(h, k, l);
    assert rest == d1 * h.c + d2 * k.c + d3 * l.c;
    hide Det, Rest, Weighted;
    SignedSum(sign, d1, d2, d3, h.a, k.a, l.a, 0.0);
    SignedSum(sign, d1, d2, d3, h.b, k.b, l.b, 0.0);
    SignedSum(sign, d1, d2, d3, h.c, k.c, l.c, rest);
  }

  lemma CramerIdentity(h: HalfPlane, k: HalfPlane, l: HalfPlane)
    ensures Det(k, l) * h.a + Det(l, h) * k.a + Det(h, k) * l.a == 0.0
    ensures Det(k, l) * h.b + Det(l, h) * k.b + Det(h, k) * l.b == 0.0
  {
    CramerTerms(h.a, h.b, k.a, k.b, l.a, l.b);
  }

  lemma CramerTerms(a: real, b: real, a': real, b': real, a'': real, b'': real)
    ensures (a' * b'' - a'' * b') * a + (a'' * b - a * b'') * a' + (a * b' - a' * b) * a'' == 0.0
    ensures (a' * b'' - a'' * b') * b + (a'' * b - a * b'') * b' + (a * b' - a' * b) * b'' == 0.0
  {
  }

  lemma SignedSum(sign: real, d1: real, d2: real, d3: real, x: real, y: real, z: real, sum: real)
    requires sum == d1 * x + d2 * y + d3 * z
    ensures Weighted(Point(sign * d1, sign * d2, sign * d3), x, y, z) == sign * sum
  {
    assert sign * sum == sign * d1 * x + sign * d2 * y + sign * d3 * z;
  }

  // A combination is harmless when no set of three conditions of its kind excludes itself.
  ghost predicate Harmless(b: Box, t: Triangle, s: Side, s': Side, s'': Side, w: Point)
    requires ValidSide(s) && ValidSide(s') && ValidSide(s'')
  {
    Separates(Combined(s, s', s'', w), b, t) ==> !Overlap(b, t, true)
  }

  lemma TripleIsOk(b: Box, t: Triangle, s: Side, s': Side, s'': Side)
    requires Passes(b, t) && ValidSide(s) && ValidSide(s') && ValidSide(s'')
    requires var h, k, l := HalfOf(s, b, t), HalfOf(s', b, t), HalfOf(s'', b, t);
             Harmless(b, t, s, s', s'', Weights(h, k, l, 1.0)) && Harmless(b, t, s, s', s'', Weights(h, k, l, -1.0))
    ensures TripleOk(HalfOf(s, b, t), HalfOf(s', b, t), HalfOf(s'', b, t))
  {
    hide Overlap, Separates, Half, Combined, Weighted, Det, Rest;
    var h, k, l := HalfOf(s, b, t), HalfOf(s', b, t), HalfOf(s'', b, t);
    WeightsCancel(h, k, l, 1.0);
    WeightsCancel(h, k, l, -1.0);
    if NonNegative(Weights(h, k, l, 1.0)) && Rest(h, k, l) < 0.0 {
      CertificateSeparates(b, t, s, s', s'', Weights(h, k, l, 1.0));
    }
    if NonNegative(Weights(h, k, l, -1.0)) && Rest(h, k, l) > 0.0 {
      CertificateSeparates(b, t, s, s', s'', Weights(h, k, l, -1.0));
    }
  }

  // All faces on one axis, or none with any weight.
  lemma OneAxisHarmless(b: Box, t: Triangle, s: Side, s': Side, s'': Side, w: Point, i: nat)
    requires ValidSide(s) && ValidSide(s') && ValidSide(s'') && i < 3
    requires (w.x == 0.0 || OnAxis(s, i)) && (w.y == 0.0 || OnAxis(s', i)) && (w.z == 0.0 || OnAxis(s'', i))
    ensures Harmless(b, t, s, s', s'', w)
  {
    hide Overlap, Separates, Combined, UnitAxis;
    if Separates(Combined(s, s', s'', w), b, t) {
      var c := OneAxis(s, s', s'', w, i);
      SideBlocks(b, t, i, c);
    }
  }

  // Two faces and an edge: the combination is perpendicular to that edge.
  lemma TwoFacesHarmless(b: Box, t: Triangle, s: Side, s': Side, corner: nat, sign: real)
    requires ValidSide(s) && ValidSide(s') && corner < 3 && s.Face? && s'.Face? && s.axis != s'.axis
    ensures Harmless(b, t, s, s', Edge(corner),
                     Weights(HalfOf(s, b, t), HalfOf(s', b, t), HalfOf(Edge(corner), b, t), sign))
  {
    hide Overlap, Separates, Half, Push, Combined, Weighted, Seen, Reach, Point.Dot, Point.Cross, UnitAxis, Edge0,
         Edge1, Edge2, Det, Weights, Rest;
    var h, k, l := HalfOf(s, b, t), HalfOf(s', b, t), HalfOf(Edge(corner), b, t);
    var w := Weights(h, k, l, sign);
    var m, axis, d := Combined(s, s', Edge(corner), w), ThirdAxis(s.axis, s'.axis), EdgeAcross(t, corner);
    if Separates(m, b, t) {
      NoThirdComponent(s, s', Edge(corner), w);
      PerpendicularToEdge(b, t, s, s', corner, sign);
      if d.Cross(UnitAxis(axis)) != Point(0.0, 0.0, 0.0) {
        EdgeBlocks(b, t, corner, axis, m);
      } else {
        FlatEdge(d, s, s');
        NoWeightOnFlatEdge(b, t, s, s', corner, sign);
        OneAxisHarmless(b, t, s, s', Edge(corner), w, 0);
      }
    }
  }

  // Along an edge its own condition does not change.
  lemma EdgeSlopes(corner: nat, b: Box, t: Triangle)
    requires corner < 3
    ensures var l := HalfOf(Edge(corner), b, t);
            if corner == 0 then l.a == -1.0 && l.b == -1.0 else if corner == 1 then l.a == 1.0 && l.b == 0.0
              else l.a == 0.0 && l.b == 1.0
  {
  }

  lemma PerpendicularToEdge(b: Box, t: Triangle, s: Side, s': Side, corner: nat, sign: real)
    requires ValidSide(s) && ValidSide(s') && corner < 3 && s.Face? && s'.Face?
    ensures var w := Weights(HalfOf(s, b, t), HalfOf(s', b, t), HalfOf(Edge(corner), b, t), sign);
            Combined(s, s', Edge(corner), w).Dot(EdgeAcross(t, corner)) == 0.0
  {
    hide Half, Push, Combined, Weighted, Seen, Reach, Point.Dot, Edge0, Edge1, Edge2, Det, Weights, Rest;
    var h, k, l := HalfOf(s, b, t), HalfOf(s', b, t), HalfOf(Edge(corner), b, t);
    var w := Weights(h, k, l, sign);
    var m := Combined(s, s', Edge(corner), w);
    WeightsCancel(h, k, l, sign);
    FaceSlopes(s, b, t);
    FaceSlopes(s', b, t);
    EdgeSlopes(corner, b, t);
    CombinedAlong(s, s', Edge(corner), w, Edge0(t));
    CombinedAlong(s, s', Edge(corner), w, Edge2(t));
    EdgesSumToZero(t, m);
    EdgePush(corner, Edge0(t));
    EdgePush(corner, Edge2(t));
    CancelledPush(w, Push(s).Dot(Edge0(t)), Push(s').Dot(Edge0(t)), l.a);
    CancelledSlope(w, h.b, k.b, l.b);
  }

  lemma EdgePush(corner: nat, d: Point)
    requires corner < 3
    ensures Push(Edge(corner)).Dot(d) == 0.0
  {
    ZeroDot(d);
  }

  lemma CancelledPush(w: Point, p: real, q: real, c: real)
    ensures Weighted(w, -p, -q, c) == -Weighted(w, p, q, 0.0) + w.z * c
  {
  }

  lemma CancelledSlope(w: Point, p: real, q: real, c: real)
    ensures Weighted(w, p, q, c) == Weighted(w, p, q, 0.0) + w.z * c
  {
  }

  lemma NoWeightOnFlatEdge(b: Box, t: Triangle, s: Side, s': Side, corner: nat, sign: real)
    requires ValidSide(s) && ValidSide(s') && corner < 3 && s.Face? && s'.Face?
    requires Push(s).Dot(EdgeAcross(t, corner)) == 0.0 && Push(s').Dot(EdgeAcross(t, corner)) == 0.0
    ensures var w := Weights(HalfOf(s, b, t), HalfOf(s', b, t), HalfOf(Edge(corner), b, t), sign);
            w.x == 0.0 && w.y == 0.0
  {
    hide HalfOf, Push, Point.Dot, EdgeAcross, Det, Edge0, Edge1, Edge2, UnitAxis;
    var h, k, l := HalfOf(s, b, t), HalfOf(s', b, t), HalfOf(Edge(corner), b, t);
    FlatSlopes(b, t, s, corner);
    FlatSlopes(b, t, s', corner);
    ParallelsTurn(h, l);
    ZeroTimes(Det(k, l), sign);
    ZeroTimes(Det(l, h), sign);
  }

  lemma FlatSlopes(b: Box, t: Triangle, s: Side, corner: nat)
    requires ValidSide(s) && corner < 3 && s.Face? && Push(s).Dot(EdgeAcross(t, corner)) == 0.0
    ensures Det(HalfOf(s, b, t), HalfOf(Edge(corner), b, t)) == 0.0
  {
    hide HalfOf, Push, Point.Dot, Edge0, Edge1, Edge2, UnitAxis;
    FaceSlopes(s, b, t);
    EdgeSlopes(corner, b, t);
    EdgesSumToZero(t, Push(s));
    DetWithEdge(HalfOf(s, b, t), HalfOf(Edge(corner), b, t), corner);
  }

  lemma DetWithEdge(k: HalfPlane, l: HalfPlane, corner: nat)
    requires if corner == 0 then l.a == -1.0 && l.b == -1.0 && k.a == k.b
             else if corner == 1 then l.a == 1.0 && l.b == 0.0 && k.b == 0.0
             else l.a == 0.0 && l.b == 1.0 && k.a == 0.0
    ensures Det(k, l) == 0.0
  {
  }

  // Three faces of different axes: the combination is perpendicular to the triangle's plane.
  lemma ThreeFacesHarmless(b: Box, t: Triangle, s: Side, s': Side, s'': Side, sign: real)
    requires ValidSide(s) && ValidSide(s') && ValidSide(s'') && s.Face? && s'.Face? && s''.Face?
    ensures Harmless(b, t, s, s', s'', Weights(HalfOf(s, b, t), HalfOf(s', b, t), HalfOf(s'', b, t), sign))
  {
    hide Overlap, Separates, Half, Push, Combined, Weighted, Seen, Reach, Point.Dot, Point.Cross, Edge0, Edge1, Edge2,
         Det, Weights, Rest;
    var h, k, l := HalfOf(s, b, t), HalfOf(s', b, t), HalfOf(s'', b, t);
    var w := Weights(h, k, l, sign);
    var m := Combined(s, s', s'', w);
    if Separates(m, b, t) {
      WeightsCancel(h, k, l, sign);
      FaceSlopes(s, b, t);
      FaceSlopes(s', b, t);
      FaceSlopes(s'', b, t);
      CombinedAlong(s, s', s'', w, Edge0(t));
      CombinedAlong(s, s', s'', w, Edge2(t));
      OppositeSlope(w, Push(s).Dot(Edge0(t)), Push(s').Dot(Edge0(t)), Push(s'').Dot(Edge0(t)), m.Dot(Edge0(t)));
      if Edge0(t).Cross(Edge1(t)) != Point(0.0, 0.0, 0.0) {
        NormalBlocks(b, t, m);
      } else {
        NoArea(b, t, s, s', sign);
        NoArea(b, t, s', s'', sign);
        NoArea(b, t, s'', s, sign);
        WeightsAre(h, k, l, sign);
        OneAxisHarmless(b, t, s, s', s'', w, 0);
      }
    }
  }

  lemma WeightsAre(h: HalfPlane, k: HalfPlane, l: HalfPlane, sign: real)
    ensures var w := Weights(h, k, l, sign);
            w.x == sign * Det(k, l) && w.y == sign * Det(l, h) && w.z == sign * Det(h, k)
  {
  }

  // Without area all faces' conditions are parallel.
  lemma NoArea(b: Box, t: Triangle, s: Side, s': Side, sign: real)
    requires ValidSide(s) && ValidSide(s') && s.Face? && s'.Face?
    requires Edge0(t).Cross(Edge1(t)) == Point(0.0, 0.0, 0.0)
    ensures sign * Det(HalfOf(s, b, t), HalfOf(s', b, t)) == 0.0
  {
    hide HalfOf, Push, Point.Dot, Point.Cross, Edge0, Edge1, Edge2, UnitAxis, Det;
    OtherCross(t);
    AreaOfFaces(b, t, s, s');
    ZeroDot(Push(s).Cross(Push(s')));
    DotCommutes(Edge0(t).Cross(Edge2(t)), Push(s).Cross(Push(s')));
    ZeroTimes(Det(HalfOf(s, b, t), HalfOf(s', b, t)), sign);
  }

  lemma AreaOfFaces(b: Box, t: Triangle, s: Side, s': Side)
    requires ValidSide(s) && ValidSide(s') && s.Face? && s'.Face?
    ensures Det(HalfOf(s, b, t), HalfOf(s', b, t)) == -Push(s).Cross(Push(s')).Dot(Edge0(t).Cross(Edge2(t)))
  {
    hide HalfOf, Push, Point.Dot, Point.Cross, Edge0, Edge1, Edge2, UnitAxis;
    FaceSlopes(s, b, t);
    FaceSlopes(s', b, t);
    ProductOfDots(Push(s), Push(s'), Edge0(t), Edge2(t));
    DetOfSlopes(HalfOf(s, b, t), HalfOf(s', b, t), Push(s).Dot(Edge0(t)), Push(s').Dot(Edge0(t)));
  }

  lemma DetOfSlopes(h: HalfPlane, k: HalfPlane, p: real, q: real)
    requires h.a == -p && k.a == -q
    ensures Det(h, k) == -(p * k.b - q * h.b)
  {
  }

  lemma OtherCross(t: Triangle)
    requires Edge0(t).Cross(Edge1(t)) == Point(0.0, 0.0, 0.0)
    ensures Edge0(t).Cross(Edge2(t)) == Point(0.0, 0.0, 0.0)
  {
    CrossOfRest(Edge0(t), Edge1(t));
    assert Edge2(t) == Point(0.0, 0.0, 0.0).Minus(Edge0(t)).Minus(Edge1(t));
    hide Point.Cross, Edge0, Edge1, Edge2;
  }

  lemma CrossOfRest(p: Point, q: Point)
    ensures p.Cross(Point(0.0, 0.0, 0.0).Minus(p).Minus(q)) == Point(0.0, 0.0, 0.0).Minus(p.Cross(q))
  {
    var l, r := p.Cross(Point(0.0, 0.0, 0.0).Minus(p).Minus(q)), Point(0.0, 0.0, 0.0).Minus(p.Cross(q));
    assert l.x == r.x;
    assert l.y == r.y;
    assert l.z == r.z;
  }

  // (a.c)(b.d) - (b.c)(a.d) = (a x b).(c x d).
  lemma ProductOfDots(a: Point, b: Point, c: Point, d: Point)
    ensures a.Dot(c) * b.Dot(d) - b.Dot(c) * a.Dot(d) == a.Cross(b).Dot(c.Cross(d))
  {
  }

  // ---- the test is exact

  lemma FacesFirst(b: Box, t: Triangle, s: Side, s': Side, s'': Side)
    requires Passes(b, t) && ValidSide(s) && ValidSide(s') && ValidSide(s'')
    requires (s.Face? && s'.Face?) || !((s'.Face? && s''.Face?) || (s''.Face? && s.Face?))
    ensures TripleOk(HalfOf(s, b, t), HalfOf(s', b, t), HalfOf(s'', b, t))
  {
    hide HalfOf, Passes, Harmless, TripleOk, Weights;
    forall sign: real
      ensures Harmless(b, t, s, s', s'', Weights(HalfOf(s, b, t), HalfOf(s', b, t), HalfOf(s'', b, t), sign))
    {
      if s.Face? && s'.Face? && s''.Face? {
        ThreeFacesHarmless(b, t, s, s', s'', sign);
      } else if s.Face? && s'.Face? && s.axis != s'.axis {
        TwoFacesHarmless(b, t, s, s', s''.corner, sign);
      } else {
        var i := if s.Face? then s.axis else if s'.Face? then s'.axis else if s''.Face? then s''.axis else 0;
        OneAxisHarmless(b, t, s, s', s'', Weights(HalfOf(s, b, t), HalfOf(s', b, t), HalfOf(s'', b, t), sign), i);
      }
    }
    TripleIsOk(b, t, s, s', s'');
  }

  lemma SidesMeet(b: Box, t: Triangle, s: Side, s': Side, s'': Side)
    requires Passes(b, t) && ValidSide(s) && ValidSide(s') && ValidSide(s'')
    ensures Meet(HalfOf(s, b, t), HalfOf(s', b, t), HalfOf(s'', b, t))
  {
    hide HalfOf, Passes, TripleOk, PairOk, Meet;
    var h, k, l := HalfOf(s, b, t), HalfOf(s', b, t), HalfOf(s'', b, t);
    if s'.Face? && s''.Face? {
      FacesFirst(b, t, s', s'', s);
      TripleTurns(k, l, h);
      TripleTurns(l, h, k);
    } else if s''.Face? && s.Face? {
      FacesFirst(b, t, s'', s, s');
      TripleTurns(l, h, k);
    } else {
      FacesFirst(b, t, s, s', s'');
    }
    PairIsOk(b, t, s, s');
    PairIsOk(b, t, s', s'');
    PairIsOk(b, t, s'', s);
    CompatibleMeet(h, k, l);
  }

  // All six faces, then all three edges.
  function SideAt(i: nat): (s: Side)
    requires i < 9
    ensures ValidSide(s)
  {
    if i < 3 then Face(i, true) else if i < 6 then Face(i - 3, false) else Edge(i - 6)
  }

  function Conditions(b: Box, t: Triangle): seq<HalfPlane> {
    seq(9, i requires 0 <= i < 9 => HalfOf(SideAt(i), b, t))
  }

  lemma ConditionsMeet(b: Box, t: Triangle)
    requires Passes(b, t)
    ensures ThreesMeet(Conditions(b, t))
  {
    hide HalfOf, Passes, Meet, ValidSide;
    var s := Conditions(b, t);
    forall i, j, k | 0 <= i < 9 && 0 <= j < 9 && 0 <= k < 9 ensures Meet(s[i], s[j], s[k]) {
      SidesMeet(b, t, SideAt(i), SideAt(j), SideAt(k));
    }
  }

  // A face's condition bounds the point's coordinate on that side.
  lemma FaceBounds(s: Side, b: Box, t: Triangle, x: Spot)
    requires s.Face? && ValidSide(s)
    ensures HalfOf(s, b, t).At(x) ==
            Component(b.extents, s.axis) - Sign(s.up) * Component(At(t, x.u, x.v).Minus(b.center), s.axis)
  {
    hide Push, Point.Dot, Component, At, Sign;
    var r, p := Seen(b, t), Push(s);
    PushDot(s, At(t, x.u, x.v).Minus(b.center));
    DotOfAt(p, t, b.center, x.u, x.v);
    DotOfMinus(p, r.v1, r.v0);
    DotOfMinus(p, r.v0, r.v2);
    BlendOfSlopes(p.Dot(r.v0), p.Dot(r.v1), p.Dot(r.v2), x.u, x.v);
  }

  lemma BlendOfSlopes(p: real, q: real, r: real, u: real, v: real)
    ensures -(q - p) * u + (p - r) * v - p == -Blend(p, q, r, u, v)
  {
  }

  // A point in the triangle and the box, for every triangle the test accepts.
  lemma AcceptedTouches(b: Box, t: Triangle) returns (u: real, v: real)
    requires NonNegative(b.extents) && Overlap(b, t, true)
    ensures Barycentric(u, v) && InBox(At(t, u, v), b)
  {
    hide HalfOf, Overlap, ThreesMeet, NonNegative, At, HalfPlane.At;
    ConditionsMeet(b, t);
    var x := AllMeet(Conditions(b, t));
    u, v := x.u, x.v;
    forall i: nat | i < 9 ensures HalfOf(SideAt(i), b, t).At(x) >= 0.0 {
      assert Conditions(b, t)[i] == HalfOf(SideAt(i), b, t);
    }
    EdgeConditions(b, t, x);
    assert SideAt(6) == Edge(0) && SideAt(7) == Edge(1) && SideAt(8) == Edge(2);
    FacesHold(b, t, x);
  }

  lemma EdgeConditions(b: Box, t: Triangle, x: Spot)
    ensures HalfOf(Edge(0), b, t).At(x) == 1.0 - x.u - x.v
    ensures HalfOf(Edge(1), b, t).At(x) == x.u
    ensures HalfOf(Edge(2), b, t).At(x) == x.v
  {
  }

  lemma FacesHold(b: Box, t: Triangle, x: Spot)
    requires forall i: nat :: i < 9 ==> HalfOf(SideAt(i), b, t).At(x) >= 0.0
    ensures InBox(At(t, x.u, x.v), b)
  {
    hide HalfOf, At, HalfPlane.At;
    forall i: nat | i < 3
      ensures -Component(b.extents, i) <= Component(At(t, x.u, x.v).Minus(b.center), i) <= Component(b.extents, i)
    {
      assert SideAt(i) == Face(i, true) && SideAt(i + 3) == Face(i, false);
      FaceBounds(SideAt(i), b, t, x);
      FaceBounds(SideAt(i + 3), b, t, x);
    }
    var p := At(t, x.u, x.v).Minus(b.center);
    assert Component(p, 0) == p.x && Component(p, 1) == p.y && Component(p, 2) == p.z;
  }

  // The full test accepts a triangle, degenerate or not, if and only if a point of it is in the box.
  lemma OverlapIsTouch(b: Box, t: Triangle)
    requires NonNegative(b.extents)
    ensures Overlap(b, t, true) <==> exists u: real, v: real :: Barycentric(u, v) && InBox(At(t, u, v), b)
  {
    hide Overlap, At, InBox, Barycentric;
    if Overlap(b, t, true) {
      var u, v := AcceptedTouches(b, t);
    }
    if u: real, v: real :| Barycentric(u, v) && InBox(At(t, u, v), b) {
      NeverSeparatesTouching(b, t, u, v, true);
    }
  }
}
