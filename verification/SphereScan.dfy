// What a query with a sphere reports of a tree, and when that is what touches the sphere.
module SphereScan {
  import opened RealArithmetic
  import opened Geometry
  import opened SphereTriangle
  import opened BoxTree
  import opened VolumeCollider

  // How far a coordinate lies outside an interval, squared.
  function AxisGap2(p: real, c: real, e: real): real {
    if p - c + e < 0.0 then Sq(p - c + e)
    else if p - c - e > 0.0 then Sq(p - c - e)
    else 0.0
  }

  function BoxGap2(p: Point, b: Box): real {
    AxisGap2(p.x, b.center.x, b.extents.x) + AxisGap2(p.y, b.center.y, b.extents.y)
    + AxisGap2(p.z, b.center.z, b.extents.z)
  }

  lemma SquareMonotone(a: real, b: real)
    requires Abs(a) <= Abs(b)
    ensures Sq(a) <= Sq(b)
  {
    ProductNonNegative(Abs(b) - Abs(a), Abs(b) + Abs(a));
    assert (Abs(b) - Abs(a)) * (Abs(b) + Abs(a)) == Sq(b) - Sq(a);
  }

  lemma GapBelow(p: real, c: real, e: real, x: real)
    requires c - e <= x <= c + e
    ensures 0.0 <= AxisGap2(p, c, e) <= Sq(x - p)
  {
    SquarePositive(x - p);
    SquarePositive(p - c + e);
    SquarePositive(p - c - e);
    if p - c + e < 0.0 {
      SquareMonotone(p - c + e, x - p);
    } else if p - c - e > 0.0 {
      SquareMonotone(p - c - e, x - p);
    }
  }

  lemma DistanceBySquares(p: Point, q: Point)
    ensures p.SquareDistance(q) == Sq(p.x - q.x) + Sq(p.y - q.y) + Sq(p.z - q.z)
  {
  }

  // No point of the box is nearer to the center than the gap.
  lemma BoxGapBelow(center: Point, b: Box, x: Point)
    requires InBox(x, b)
    ensures BoxGap2(center, b) <= x.SquareDistance(center)
  {
    GapBelow(center.x, b.center.x, b.extents.x, x.x);
    GapBelow(center.y, b.center.y, b.extents.y, x.y);
    GapBelow(center.z, b.center.z, b.extents.z, x.z);
    DistanceBySquares(x, center);
  }

  // The coordinate of an interval nearest to p.
  function NearestCoordinate(p: real, c: real, e: real): real {
    if p < c - e then c - e else if p > c + e then c + e else p
  }

  lemma GapReached(p: real, c: real, e: real)
    requires e >= 0.0
    ensures var x := NearestCoordinate(p, c, e);
            c - e <= x <= c + e && AxisGap2(p, c, e) == Sq(x - p)
  {
    SquareOfOpposite(p - c + e);
    SquareOfOpposite(p - c - e);
    assert -(p - c + e) == c - e - p && -(p - c - e) == c + e - p;
    SquarePositive(0.0);
    assert p - p == 0.0;
    hide Sq;
  }

  // And some point of a box is exactly that near, so the test accepts just the boxes that hold a point
  // within the radius.
  lemma GapIsDistance(center: Point, radius2: real, b: Box)
    requires b.extents.x >= 0.0 && b.extents.y >= 0.0 && b.extents.z >= 0.0
    ensures BoxGap2(center, b) <= radius2 <==> exists x: Point :: InBox(x, b) && x.SquareDistance(center) <= radius2
  {
    GapReached(center.x, b.center.x, b.extents.x);
    GapReached(center.y, b.center.y, b.extents.y);
    GapReached(center.z, b.center.z, b.extents.z);
    var x := Point(NearestCoordinate(center.x, b.center.x, b.extents.x),
                   NearestCoordinate(center.y, b.center.y, b.extents.y),
                   NearestCoordinate(center.z, b.center.z, b.extents.z));
    DistanceBySquares(x, center);
    hide Point.SquareDistance, AxisGap2, Sq, NearestCoordinate;
    assert InBox(x, b) && x.SquareDistance(center) == BoxGap2(center, b);
    forall y: Point | InBox(y, b) && y.SquareDistance(center) <= radius2 ensures BoxGap2(center, b) <= radius2 {
      BoxGapBelow(center, b, y);
    }
  }

  // On each axis one end of an interval is at least as far as any point of it.
  lemma FarEnd(p: real, c: real, e: real, x: real) returns (up: bool)
    requires c - e <= x <= c + e
    ensures Sq(x - p) <= Sq((if up then c + e else c - e) - p)
  {
    up := x >= p;
    if up {
      SquareMonotone(x - p, c + e - p);
    } else {
      SquareMonotone(x - p, c - e - p);
    }
  }

  function Corner(b: Box, ux: bool, uy: bool, uz: bool): Point {
    Point(if ux then b.center.x + b.extents.x else b.center.x - b.extents.x,
          if uy then b.center.y + b.extents.y else b.center.y - b.extents.y,
          if uz then b.center.z + b.extents.z else b.center.z - b.extents.z)
  }

  predicate CornersInside(center: Point, radius2: real, b: Box) {
    forall ux: bool, uy: bool, uz: bool :: center.SquareDistance(Corner(b, ux, uy, uz)) < radius2
  }

  // A sphere that holds the corners of a box holds the box.
  lemma CornersHoldBox(center: Point, radius2: real, b: Box, x: Point)
    requires CornersInside(center, radius2, b) && InBox(x, b)
    ensures x.SquareDistance(center) < radius2
  {
    var ux := FarEnd(center.x, b.center.x, b.extents.x, x.x);
    var uy := FarEnd(center.y, b.center.y, b.extents.y, x.y);
    var uz := FarEnd(center.z, b.center.z, b.extents.z, x.z);
    var k := Corner(b, ux, uy, uz);
    DistanceBySquares(x, center);
    DistanceBySquares(center, k);
    assert Sq(center.x - k.x) == Sq(k.x - center.x);
    assert Sq(center.y - k.y) == Sq(k.y - center.y);
    assert Sq(center.z - k.z) == Sq(k.z - center.z);
    assert center.SquareDistance(k) < radius2;
  }

  lemma GapNonNegative(p: real, c: real, e: real)
    ensures AxisGap2(p, c, e) >= 0.0
  {
    SquarePositive(p - c + e);
    SquarePositive(p - c - e);
  }

  // ---- what a query reports

  predicate Solid(m: Mesh, p: nat)
    requires m.Valid()
  {
    p < |m.faces| && !Degenerate(m.Tri(p))
  }

  function SolidTest(m: Mesh): nat -> bool
    requires m.Valid()
  {
    (p: nat) => Solid(m, p)
  }

  ghost predicate AllSolid(m: Mesh)
    requires m.Valid()
  {
    forall p: nat :: p < |m.faces| ==> Solid(m, p)
  }

  // What the triangle test answers for a primitive.
  ghost function Near(center: Point, radius2: real, m: Mesh): nat -> bool
    requires m.Valid()
  {
    (p: nat) => p < |m.faces| && Reported(m.Tri(p), center, radius2)
  }

  // What it should answer.
  ghost function Touching(center: Point, radius2: real, m: Mesh): nat -> bool
    requires m.Valid()
  {
    (p: nat) => p < |m.faces| && Touches(m.Tri(p), center, radius2)
  }

  ghost function TouchingSolid(center: Point, radius2: real, m: Mesh): nat -> bool
    requires m.Valid()
  {
    (p: nat) => Solid(m, p) && Touches(m.Tri(p), center, radius2)
  }

  // The primitives reported below a node when all contacts are asked for. Without leaf nodes, the
  // boxes of the leaves are not kept, and only the triangle test decides about a leaf.
  ghost function Reports(t: Tree, center: Point, radius2: real, m: Mesh, boxed: bool): seq<nat>
    requires m.Valid()
    decreases t
  {
    if t.Leaf? && !boxed then Accepted([t.prim], Near(center, radius2, m))
    else if BoxGap2(center, t.box) > radius2 then []
    else if CornersInside(center, radius2, t.box) then Prims(t)
    else match t
      case Leaf(_, p) => Accepted([p], Near(center, radius2, m))
      case Node(_, pos, neg) => Reports(pos, center, radius2, m, boxed) + Reports(neg, center, radius2, m, boxed)
  }

  // ---- the prune tests

  lemma TouchingNearBox(center: Point, radius2: real, b: Box, t: Triangle)
    requires Encloses(b, t) && Touches(t, center, radius2)
    ensures BoxGap2(center, b) < radius2
  {
    hide BoxGap2, Point.SquareDistance;
    var u: real, v: real :| Barycentric(u, v) && At(t, u, v).SquareDistance(center) < radius2;
    EnclosedPoint(b, t, u, v);
    BoxGapBelow(center, b, At(t, u, v));
  }

  // A triangle below a box out of reach does not touch the sphere.
  lemma OutOfReach(center: Point, radius2: real, m: Mesh, t: Tree)
    requires Covers(t, m) && BoxGap2(center, t.box) > radius2
    ensures forall p <- Prims(t) :: !Touching(center, radius2, m)(p)
  {
    hide BoxGap2, Touches, Encloses;
    forall p <- Prims(t) ensures !Touching(center, radius2, m)(p) {
      if Touching(center, radius2, m)(p) {
        TouchingNearBox(center, radius2, t.box, m.Tri(p));
      }
    }
  }

  // Inside a box the sphere holds, every triangle touches it.
  lemma AllWithin(center: Point, radius2: real, m: Mesh, t: Tree)
    requires Covers(t, m) && CornersInside(center, radius2, t.box)
    ensures forall p <- Prims(t) :: Touching(center, radius2, m)(p)
  {
    hide CornersInside, Touches, Encloses;
    forall p <- Prims(t) ensures Touching(center, radius2, m)(p) {
      HeldTouches(center, radius2, t.box, m.Tri(p));
    }
  }

  lemma HeldTouches(center: Point, radius2: real, b: Box, t: Triangle)
    requires Encloses(b, t) && CornersInside(center, radius2, b)
    ensures Touches(t, center, radius2)
  {
    hide CornersInside, Point.SquareDistance;
    assert Barycentric(0.0, 0.0);
    EnclosedPoint(b, t, 0.0, 0.0);
    CornersHoldBox(center, radius2, b, At(t, 0.0, 0.0));
  }

  // ---- what holds on every mesh

  // Of the triangles with area, exactly those that touch the sphere are reported, in order.
  lemma {:induction false} SolidExactly(t: Tree, center: Point, radius2: real, m: Mesh, boxed: bool)
    requires Covers(t, m)
    ensures Accepted(Reports(t, center, radius2, m, boxed), SolidTest(m)) ==
            Accepted(Prims(t), TouchingSolid(center, radius2, m))
    decreases t
  {
    NodeFacts(t, m);
    hide Covers, BoxGap2, CornersInside, Touches, Degenerate;
    var found, solid, near := Reports(t, center, radius2, m, boxed), SolidTest(m), TouchingSolid(center, radius2, m);
    if t.Leaf? && (!boxed || (BoxGap2(center, t.box) <= radius2 && !CornersInside(center, radius2, t.box))) {
      ScanOfOne(t.prim, Near(center, radius2, m));
      ScanOfOne(t.prim, near);
      ScanOfOne(t.prim, solid);
      assert Accepted([], solid) == [];
    } else if BoxGap2(center, t.box) > radius2 {
      OutOfReach(center, radius2, m, t);
      AcceptedNone(Prims(t), near);
      assert Accepted([], solid) == [];
    } else if CornersInside(center, radius2, t.box) {
      AllWithin(center, radius2, m, t);
      AcceptedSame(Prims(t), near, solid);
    } else {
      SolidExactly(t.pos, center, radius2, m, boxed);
      SolidExactly(t.neg, center, radius2, m, boxed);
      hide Accepted;
      AcceptedConcat(Reports(t.pos, center, radius2, m, boxed), Reports(t.neg, center, radius2, m, boxed), solid);
      AcceptedConcat(Prims(t.pos), Prims(t.neg), near);
    }
  }

  // No radius in the range of floats lets the test report a triangle that does not touch.
  lemma {:induction false} OnlyTouching(t: Tree, center: Point, radius2: real, m: Mesh, boxed: bool)
    requires Covers(t, m) && radius2 <= FLT_MAX
    ensures forall p <- Reports(t, center, radius2, m, boxed) :: p in Prims(t) && Touching(center, radius2, m)(p)
    decreases t
  {
    NodeFacts(t, m);
    hide Covers, BoxGap2, CornersInside, Touches, Degenerate;
    if t.Leaf? && (!boxed || (BoxGap2(center, t.box) <= radius2 && !CornersInside(center, radius2, t.box))) {
      ScanOfOne(t.prim, Near(center, radius2, m));
    } else if BoxGap2(center, t.box) > radius2 {
    } else if CornersInside(center, radius2, t.box) {
      AllWithin(center, radius2, m, t);
    } else {
      OnlyTouching(t.pos, center, radius2, m, boxed);
      OnlyTouching(t.neg, center, radius2, m, boxed);
    }
  }

  // Nothing is reported more often than it occurs.
  lemma {:induction false} NoneTwice(t: Tree, center: Point, radius2: real, m: Mesh, boxed: bool, p: nat)
    requires Covers(t, m)
    ensures multiset(Reports(t, center, radius2, m, boxed))[p] <= multiset(Prims(t))[p]
    decreases t
  {
    NodeFacts(t, m);
    hide Covers, BoxGap2, CornersInside, Reported;
    if t.Leaf? {
      ScanOfOne(t.prim, Near(center, radius2, m));
    } else if BoxGap2(center, t.box) <= radius2 && !CornersInside(center, radius2, t.box) {
      NoneTwice(t.pos, center, radius2, m, boxed, p);
      NoneTwice(t.neg, center, radius2, m, boxed, p);
      hide Prims, Accepted, Near;
      BothCounts(Reports(t.pos, center, radius2, m, boxed), Reports(t.neg, center, radius2, m, boxed), p);
      BothCounts(Prims(t.pos), Prims(t.neg), p);
    }
  }

  lemma BothCounts(l: seq<nat>, k: seq<nat>, p: nat)
    ensures multiset(l + k)[p] == multiset(l)[p] + multiset(k)[p]
  {
  }

  // Without degenerate triangles the report is the linear scan, of any radius.
  lemma {:induction false} ScanOnSolid(t: Tree, center: Point, radius2: real, m: Mesh, boxed: bool)
    requires Covers(t, m) && AllSolid(m)
    ensures Reports(t, center, radius2, m, boxed) == Accepted(Prims(t), Touching(center, radius2, m))
    decreases t
  {
    NodeFacts(t, m);
    hide Covers, BoxGap2, CornersInside, Touches, Degenerate;
    var near, touching := Near(center, radius2, m), Touching(center, radius2, m);
    if t.Leaf? && (!boxed || (BoxGap2(center, t.box) <= radius2 && !CornersInside(center, radius2, t.box))) {
      assert Solid(m, t.prim);
      ScanOfOne(t.prim, near);
      ScanOfOne(t.prim, touching);
    } else if BoxGap2(center, t.box) > radius2 {
      OutOfReach(center, radius2, m, t);
      AcceptedNone(Prims(t), touching);
    } else if CornersInside(center, radius2, t.box) {
      AllWithin(center, radius2, m, t);
      AcceptedAll(Prims(t), touching);
    } else {
      ScanOnSolid(t.pos, center, radius2, m, boxed);
      ScanOnSolid(t.neg, center, radius2, m, boxed);
      hide Accepted;
      AcceptedConcat(Prims(t.pos), Prims(t.neg), touching);
    }
  }

  // What a first-contact query reports touches the sphere, and something is reported whenever a
  // triangle with area touches it.
  lemma FirstContact(t: Tree, center: Point, radius2: real, m: Mesh, boxed: bool)
    requires Covers(t, m) && radius2 <= FLT_MAX
    ensures var first := Report(true, Reports(t, center, radius2, m, boxed));
            && |first| <= 1 && (forall p <- first :: p in Prims(t) && Touching(center, radius2, m)(p))
            && ((exists p <- Prims(t) :: TouchingSolid(center, radius2, m)(p)) ==> first != [])
  {
    hide Covers, Reports, Touches, Degenerate;
    NodeFacts(t, m);
    OnlyTouching(t, center, radius2, m, boxed);
    SolidExactly(t, center, radius2, m, boxed);
    var found := Reports(t, center, radius2, m, boxed);
    if found != [] {
      assert found[0] in found;
    } else {
      assert Accepted(found, SolidTest(m)) == [];
    }
  }

  // In all-contacts mode: triangles with area are reported exactly as often as they should be, all
  // others at most as often as they occur, and only if they touch.
  lemma ReportCounts(t: Tree, center: Point, radius2: real, m: Mesh, boxed: bool, p: nat)
    requires Covers(t, m)
    ensures var n: nat := multiset(Reports(t, center, radius2, m, boxed))[p];
            && n <= multiset(Prims(t))[p]
            && (p < |m.faces| && Solid(m, p) ==>
                  n == if Touching(center, radius2, m)(p) then multiset(Prims(t))[p] else 0)
            && (radius2 <= FLT_MAX && n > 0 ==> Touching(center, radius2, m)(p))
  {
    NodeFacts(t, m);
    NoneTwice(t, center, radius2, m, boxed, p);
    SolidExactly(t, center, radius2, m, boxed);
    hide Covers, Reports, Touches, Degenerate, Accepted;
    var found := Reports(t, center, radius2, m, boxed);
    AcceptedCounts(found, SolidTest(m), p);
    AcceptedCounts(Prims(t), TouchingSolid(center, radius2, m), p);
    if radius2 <= FLT_MAX {
      OnlyTouching(t, center, radius2, m, boxed);
      assert p in multiset(found) ==> p in found;
    }
  }

  // ---- exactly when the report is right

  predicate IsPoint(b: Box) { b.extents == Point(0.0, 0.0, 0.0) }

  // Every degenerate triangle is below a box that is a single point, whose acceptance it shares.
  predicate Sure(t: Tree, m: Mesh, boxed: bool)
    requires m.Valid()
    decreases t
  {
    match t
    case Leaf(b, p) => Solid(m, p) || (boxed && IsPoint(b))
    case Node(b, pos, neg) => IsPoint(b) || (Sure(pos, m, boxed) && Sure(neg, m, boxed))
  }

  // The query reports what a scan for triangles that touch the sphere would.
  ghost predicate RightFor(t: Tree, m: Mesh, boxed: bool, center: Point, radius: real)
    requires m.Valid()
  {
    Reports(t, center, Sq(radius), m, boxed) == Accepted(Prims(t), Touching(center, Sq(radius), m))
  }

  ghost predicate RightOn(t: Tree, m: Mesh, boxed: bool)
    requires m.Valid()
  {
    forall center: Point, radius: real :: Sq(radius) <= FLT_MAX ==> RightFor(t, m, boxed, center, radius)
  }

  // A sphere that does not hold a point touches nothing that is only that point.
  lemma PointUntouched(center: Point, radius2: real, b: Box, t: Triangle)
    requires IsPoint(b) && Encloses(b, t) && !CornersInside(center, radius2, b)
    ensures !Touches(t, center, radius2)
  {
    if Touches(t, center, radius2) {
      var u: real, v: real :| Barycentric(u, v) && At(t, u, v).SquareDistance(center) < radius2;
      EnclosedPoint(b, t, u, v);
      assert At(t, u, v) == b.center;
      DistanceBySquares(b.center, center);
      DistanceBySquares(center, b.center);
      SquareOfOpposite(b.center.x - center.x);
      SquareOfOpposite(b.center.y - center.y);
      SquareOfOpposite(b.center.z - center.z);
      hide Point.SquareDistance, Sq;
      forall ux: bool, uy: bool, uz: bool ensures Corner(b, ux, uy, uz) == b.center {
      }
    }
  }

  lemma SquareOfOpposite(a: real)
    ensures Sq(a) == Sq(-a)
  {
  }

  lemma PointsUntouched(center: Point, radius2: real, m: Mesh, t: Tree)
    requires Covers(t, m) && IsPoint(t.box) && !CornersInside(center, radius2, t.box)
    ensures forall p <- Prims(t) :: !Touching(center, radius2, m)(p)
  {
    hide CornersInside, Touches, Encloses, IsPoint;
    forall p <- Prims(t) ensures !Touching(center, radius2, m)(p) {
      PointUntouched(center, radius2, t.box, m.Tri(p));
    }
  }

  lemma NothingIn(l: seq<nat>, accept: nat -> bool)
    requires forall p <- l :: accept(p)
    requires forall p <- l :: !accept(p)
    ensures l == []
  {
    AcceptedAll(l, accept);
    AcceptedNone(l, accept);
  }

  lemma {:induction false} RightWhenSure(t: Tree, center: Point, radius2: real, m: Mesh, boxed: bool)
    requires Covers(t, m) && Sure(t, m, boxed) && radius2 <= FLT_MAX
    ensures Reports(t, center, radius2, m, boxed) == Accepted(Prims(t), Touching(center, radius2, m))
    decreases t
  {
    NodeFacts(t, m);
    OnlyTouching(t, center, radius2, m, boxed);
    hide Covers, BoxGap2, CornersInside, Touches, Degenerate, IsPoint;
    var found, touching := Reports(t, center, radius2, m, boxed), Touching(center, radius2, m);
    if BoxGap2(center, t.box) > radius2 && (boxed || t.Node?) {
      OutOfReach(center, radius2, m, t);
      AcceptedNone(Prims(t), touching);
    } else if CornersInside(center, radius2, t.box) && (boxed || t.Node?) {
      AllWithin(center, radius2, m, t);
      AcceptedAll(Prims(t), touching);
    } else if IsPoint(t.box) && (boxed || t.Node?) {
      PointsUntouched(center, radius2, m, t);
      AcceptedNone(Prims(t), touching);
      NothingIn(found, touching);
    } else if t.Leaf? {
      ScanOfOne(t.prim, Near(center, radius2, m));
      ScanOfOne(t.prim, touching);
    } else {
      RightWhenSure(t.pos, center, radius2, m, boxed);
      RightWhenSure(t.neg, center, radius2, m, boxed);
      hide Accepted;
      AcceptedConcat(Prims(t.pos), Prims(t.neg), touching);
    }
  }

  // Some occurrence of a primitive is not reported around its first corner.
  ghost predicate Misses(t: Tree, m: Mesh, boxed: bool, d: nat, radius2: real)
    requires m.Valid() && d < |m.faces|
  {
    multiset(Reports(t, m.Tri(d).v0, radius2, m, boxed))[d] < multiset(Prims(t))[d]
  }

  // A box that is not a point does not fit into a small sphere around one of its points.
  lemma TooBig(b: Box, x: Point) returns (bound: real)
    requires InBox(x, b) && !IsPoint(b)
    ensures bound > 0.0
    ensures forall radius2: real :: radius2 <= bound ==> !CornersInside(x, radius2, b)
  {
    var ux, uy, uz := x.x <= b.center.x, x.y <= b.center.y, x.z <= b.center.z;
    var k := Corner(b, ux, uy, uz);
    DistanceBySquares(x, k);
    SquarePositive(x.x - k.x);
    SquarePositive(x.y - k.y);
    SquarePositive(x.z - k.z);
    bound := x.SquareDistance(k);
    hide Sq, Point.SquareDistance;
    assert x.x != k.x || x.y != k.y || x.z != k.z;
    forall radius2: real | radius2 <= bound ensures !CornersInside(x, radius2, b) {
      assert !(x.SquareDistance(Corner(b, ux, uy, uz)) < radius2);
    }
  }

  lemma OwnCornerInReach(b: Box, t: Triangle, radius2: real)
    requires Encloses(b, t) && radius2 >= 0.0
    ensures InBox(t.v0, b) && BoxGap2(t.v0, b) <= radius2
  {
    BoxGapBelow(t.v0, b, t.v0);
  }

  lemma LeafMisses(t: Tree, m: Mesh, boxed: bool, radius2: real)
    requires Covers(t, m) && t.Leaf? && t.prim < |m.faces| && Degenerate(m.Tri(t.prim)) && radius2 <= FLT_MAX
    requires boxed ==> !CornersInside(m.Tri(t.prim).v0, radius2, t.box)
    ensures Misses(t, m, boxed, t.prim, radius2)
  {
    hide BoxGap2, CornersInside, Touches, Degenerate;
    ScanOfOne(t.prim, Near(m.Tri(t.prim).v0, radius2, m));
    assert Prims(t) == [t.prim];
  }

  lemma NodeMisses(t: Tree, m: Mesh, boxed: bool, d: nat, radius2: real)
    requires Covers(t, m) && t.Node? && d in Prims(t) && d < |m.faces| && radius2 >= 0.0
    requires !CornersInside(m.Tri(d).v0, radius2, t.box)
    requires Misses(t.pos, m, boxed, d, radius2) || Misses(t.neg, m, boxed, d, radius2)
    ensures Misses(t, m, boxed, d, radius2)
  {
    OwnCornerInReach(t.box, m.Tri(d), radius2);
    var center := m.Tri(d).v0;
    NodeFacts(t, m);
    NoneTwice(t.pos, center, radius2, m, boxed, d);
    NoneTwice(t.neg, center, radius2, m, boxed, d);
    hide Covers, BoxGap2, CornersInside, Accepted;
    BothCounts(Reports(t.pos, center, radius2, m, boxed), Reports(t.neg, center, radius2, m, boxed), d);
    BothCounts(Prims(t.pos), Prims(t.neg), d);
  }

  // Where a tree is not sure, some degenerate triangle is missed by all small spheres around it.
  lemma {:induction false} UnsureMisses(t: Tree, m: Mesh, boxed: bool) returns (d: nat, bound: real)
    requires Covers(t, m) && !Sure(t, m, boxed)
    ensures bound > 0.0 && d in Prims(t) && d < |m.faces|
    ensures forall radius2: real :: 0.0 < radius2 <= bound && radius2 <= FLT_MAX ==> Misses(t, m, boxed, d, radius2)
    decreases t
  {
    NodeFacts(t, m);
    hide BoxGap2, CornersInside, Degenerate, Misses, IsPoint, InBox;
    if t.Leaf? {
      d, bound := t.prim, 1.0;
      assert d in Prims(t);
      OwnCornerInReach(t.box, m.Tri(d), 1.0);
      if boxed {
        bound := TooBig(t.box, m.Tri(d).v0);
      }
      forall radius2: real | 0.0 < radius2 <= bound && radius2 <= FLT_MAX ensures Misses(t, m, boxed, d, radius2) {
        LeafMisses(t, m, boxed, radius2);
      }
    } else {
      var below: real;
      if !Sure(t.pos, m, boxed) {
        d, below := UnsureMisses(t.pos, m, boxed);
      } else {
        d, below := UnsureMisses(t.neg, m, boxed);
      }
      assert d in Prims(t);
      OwnCornerInReach(t.box, m.Tri(d), 1.0);
      var own := TooBig(t.box, m.Tri(d).v0);
      bound := if own < below then own else below;
      forall radius2: real | 0.0 < radius2 <= bound && radius2 <= FLT_MAX ensures Misses(t, m, boxed, d, radius2) {
        NodeMisses(t, m, boxed, d, radius2);
      }
    }
  }

  lemma OwnCornerTouches(t: Triangle, radius2: real)
    requires radius2 > 0.0
    ensures Touches(t, t.v0, radius2)
  {
    assert Barycentric(0.0, 0.0);
    assert At(t, 0.0, 0.0) == t.v0;
    assert t.v0.SquareDistance(t.v0) == 0.0;
  }

  lemma SmallSquare(bound: real) returns (radius: real)
    requires bound > 0.0
    ensures 0.0 < Sq(radius) <= bound && Sq(radius) <= 1.0
  {
    radius := if bound < 1.0 then bound else 1.0;
    MulPositive(radius, radius);
    ProductNonNegative(1.0 - radius, radius);
    OneLess(radius);
    hide Mul;
  }

  lemma OneLess(r: real)
    ensures (1.0 - r) * r == r - Mul(r, r)
  {
  }

  // A query of this tree agrees with the scan for touching triangles for every sphere if and only
  // if the tree is sure.
  lemma RightExactlyWhenSure(t: Tree, m: Mesh, boxed: bool)
    requires Covers(t, m)
    ensures Sure(t, m, boxed) <==> RightOn(t, m, boxed)
  {
    NodeFacts(t, m);
    hide Reports, Accepted, Touches, Covers, Misses, Sq;
    if Sure(t, m, boxed) {
      forall center: Point, radius: real | Sq(radius) <= FLT_MAX ensures RightFor(t, m, boxed, center, radius) {
        RightWhenSure(t, center, Sq(radius), m, boxed);
      }
    } else {
      var d, bound := UnsureMisses(t, m, boxed);
      var radius := SmallSquare(bound);
      WrongAround(t, m, boxed, d, radius);
    }
  }

  lemma WrongAround(t: Tree, m: Mesh, boxed: bool, d: nat, radius: real)
    requires m.Valid() && d < |m.faces| && 0.0 < Sq(radius) <= FLT_MAX && Misses(t, m, boxed, d, Sq(radius))
    ensures !RightOn(t, m, boxed)
  {
    hide Reports, Accepted, Touches, Prims, Sq;
    var center := m.Tri(d).v0;
    OwnCornerTouches(m.Tri(d), Sq(radius));
    AcceptedCounts(Prims(t), Touching(center, Sq(radius), m), d);
    assert !RightFor(t, m, boxed, center, radius);
  }
}
