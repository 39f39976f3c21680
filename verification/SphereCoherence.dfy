// The cache of a fat sphere that lets later queries be skipped, and when that is right.
module SphereCoherence {
  import opened RealArithmetic
  import opened Geometry
  import opened SphereTriangle
  import opened BoxTree
  import opened Collider
  import opened VolumeCollider
  import opened SphereScan

  datatype Sphere = Sphere(center: Point, radius: real)

  // A sphere query's memory: the primitives touched last, the sphere they were found with, and how
  // much to enlarge the square of the next radius.
  datatype Cache = Cache(touched: seq<nat>, center: Point, fatRadius2: real, fatCoeff: real)

  const ORIGIN: Point := Point(0.0, 0.0, 0.0)

  // The square root the platform provides.
  type Root = real -> real

  ghost predicate SquareRoot(root: Root) {
    forall x: real :: x >= 0.0 ==> root(x) >= 0.0 && Sq(root(x)) == x
  }

  // The cached sphere is taken to hold the new one.
  predicate Reused(root: Root, s: Sphere, c: Cache) {
    c.center.SquareDistance(s.center) < Sq(root(c.fatRadius2) - s.radius)
  }

  // The cache alone settles the query.
  ghost predicate FromCache(root: Root, m: Mesh, s: Sphere, flags: Flags, c: Cache)
    requires m.Valid()
  {
    && flags.temporalCoherence && c.touched != []
    && (if flags.firstContact then Near(s.center, Sq(s.radius), m)(c.touched[0]) else Reused(root, s, c))
  }

  // The query runs with an enlarged sphere that becomes the cached one.
  predicate Refattens(root: Root, s: Sphere, flags: Flags, c: Cache) {
    flags.temporalCoherence && !flags.firstContact && !Reused(root, s, c)
  }

  // The cache after a query of a tree.
  ghost function Answer(t: Tree, m: Mesh, boxed: bool, root: Root, s: Sphere, flags: Flags, c: Cache): Cache
    requires m.Valid()
  {
    if FromCache(root, m, s, flags, c) then
      c.(touched := if flags.firstContact then [c.touched[0]] else c.touched)
    else if Refattens(root, s, flags, c) then
      var fat := Mul(Sq(s.radius), c.fatCoeff);
      c.(touched := Reports(t, s.center, fat, m, boxed), center := s.center, fatRadius2 := fat)
    else
      c.(touched := Report(flags.firstContact, Reports(t, s.center, Sq(s.radius), m, boxed)))
  }

  // The contact bits say whether anything was found and whether the cache found it.
  ghost function FlagsAfter(m: Mesh, root: Root, s: Sphere, flags: Flags, c: Cache, found: seq<nat>): Flags
    requires m.Valid()
  {
    flags.Cleared().(contact := found != [], temporalHit := FromCache(root, m, s, flags, c))
  }

  // In first-contact mode, whatever was touched before, at most one triangle is reported, which touches
  // the sphere, and one is reported whenever a triangle with area touches it.
  ghost predicate FirstAnswer(t: Tree, m: Mesh, s: Sphere, found: seq<nat>)
    requires m.Valid()
  {
    && |found| <= 1
    && (Sq(s.radius) <= FLT_MAX ==> forall p <- found :: p in Prims(t) && Touching(s.center, Sq(s.radius), m)(p))
    && (found == [] ==> forall p <- Prims(t) :: !TouchingSolid(s.center, Sq(s.radius), m)(p))
  }

  lemma FirstIsRight(t: Tree, m: Mesh, boxed: bool, root: Root, s: Sphere, flags: Flags, c: Cache)
    requires Covers(t, m) && m.Valid() && flags.firstContact && forall p <- c.touched :: p in Prims(t)
    ensures FirstAnswer(t, m, s, Answer(t, m, boxed, root, s, flags, c).touched)
  {
    hide Covers, Reports, Prims, Touches, Degenerate, Sq;
    var r2 := Sq(s.radius);
    if FromCache(root, m, s, flags, c) {
      assert c.touched[0] in c.touched;
    } else {
      SolidExactly(t, s.center, r2, m, boxed);
      var found := Reports(t, s.center, r2, m, boxed);
      SolidOrNone(found, Prims(t), s.center, r2, m);
      if r2 <= FLT_MAX {
        FirstContact(t, s.center, r2, m, boxed);
      }
    }
  }

  lemma SolidOrNone(found: seq<nat>, l: seq<nat>, center: Point, radius2: real, m: Mesh)
    requires m.Valid() && Accepted(found, SolidTest(m)) == Accepted(l, TouchingSolid(center, radius2, m))
    ensures found == [] ==> forall p <- l :: !TouchingSolid(center, radius2, m)(p)
  {
    hide Touches, Degenerate;
    if found == [] {
      assert Accepted(found, SolidTest(m)) == [];
      forall p <- l ensures !TouchingSolid(center, radius2, m)(p) {
        assert p !in Accepted(l, TouchingSolid(center, radius2, m));
      }
    }
  }

  // ---- one sphere inside another

  ghost predicate Holds(outer: Point, outer2: real, inner: Point, inner2: real) {
    forall x: Point :: x.SquareDistance(inner) < inner2 ==> x.SquareDistance(outer) < outer2
  }

  lemma SquareOfSum(p: Point, q: Point)
    ensures p.Plus(q).SquareMagnitude() == p.SquareMagnitude() + 2.0 * p.Dot(q) + q.SquareMagnitude()
  {
  }

  lemma SquareOfDifference(p: Point, q: Point, a: real, b: real)
    ensures Sq(b) * p.SquareMagnitude() - 2.0 * (Mul(a, b) * p.Dot(q)) + Sq(a) * q.SquareMagnitude() >= 0.0
  {
    WeightedSquare(p.x, q.x, a, b);
    WeightedSquare(p.y, q.y, a, b);
    WeightedSquare(p.z, q.z, a, b);
    InProducts(p, q);
    InProducts(p, p);
    InProducts(q, q);
    hide Mul, Point.SquareMagnitude, Point.Dot;
    Distribute(Sq(b), Sq(p.x), Sq(p.y), Sq(p.z));
    Distribute(Mul(a, b), Mul(p.x, q.x), Mul(p.y, q.y), Mul(p.z, q.z));
    Distribute(Sq(a), Sq(q.x), Sq(q.y), Sq(q.z));
  }

  lemma InProducts(p: Point, q: Point)
    ensures p.Dot(q) == Mul(p.x, q.x) + Mul(p.y, q.y) + Mul(p.z, q.z)
    ensures p.SquareMagnitude() == Sq(p.x) + Sq(p.y) + Sq(p.z)
  {
  }

  lemma Distribute(k: real, a: real, b: real, c: real)
    ensures k * (a + b + c) == k * a + k * b + k * c
  {
  }

  lemma WeightedSquare(p: real, q: real, a: real, b: real)
    ensures Sq(b) * Sq(p) - 2.0 * (Mul(a, b) * Mul(p, q)) + Sq(a) * Sq(q) >= 0.0
  {
    SquareNonNegative(p * b - q * a);
    assert (p * b - q * a) * (p * b - q * a) ==
           Sq(b) * Sq(p) - 2.0 * (Mul(a, b) * Mul(p, q)) + Sq(a) * Sq(q);
  }

  // Vectors shorter than two lengths have a product below that of the lengths.
  lemma ProductOfShort(p: Point, q: Point, a: real, b: real)
    requires a > 0.0 && b > 0.0 && p.SquareMagnitude() < Sq(a) && q.SquareMagnitude() < Sq(b)
    ensures p.Dot(q) < Mul(a, b)
  {
    SquareOfDifference(p, q, a, b);
    MulPositive(a, b);
    SquarePositive(a);
    SquarePositive(b);
    SquareOfProduct(a, b);
    hide Mul, Sq, Point.Dot, Point.SquareMagnitude;
    StrictProduct(Sq(b), p.SquareMagnitude(), Sq(a));
    StrictProduct(Sq(a), q.SquareMagnitude(), Sq(b));
    var ab, d := Mul(a, b), p.Dot(q);
    if d >= ab {
      ProductMonotone(ab, d, ab);
      assert false;
    }
  }

  lemma SquareOfProduct(a: real, b: real)
    ensures Sq(a) * Sq(b) == Mul(a, b) * Mul(a, b)
  {
  }

  lemma StrictProduct(k: real, x: real, y: real)
    requires k > 0.0 && x < y
    ensures k * x < k * y
  {
    ProductPositive(k, y - x);
    assert k * (y - x) == k * y - k * x;
  }

  lemma SumOfSquare(a: real, b: real)
    ensures Sq(a + b) == Sq(a) + 2.0 * Mul(a, b) + Sq(b)
  {
  }

  lemma PositiveFromSquare(a: real, b: real)
    requires a >= 0.0 && 0.0 <= b < Sq(a)
    ensures a > 0.0
  {
  }

  lemma SquareMagnitudeSign(p: Point)
    ensures p.SquareMagnitude() >= 0.0
  {
    SquareNonNegative(p.x);
    SquareNonNegative(p.y);
    SquareNonNegative(p.z);
  }

  lemma Apart(x: Point, c: Point, o: Point)
    ensures x.Minus(o) == x.Minus(c).Plus(c.Minus(o))
    ensures o.SquareDistance(c) == c.Minus(o).SquareMagnitude()
  {
  }

  // The triangle inequality.
  lemma StaysWithin(x: Point, c: Point, r: real, o: Point, f: real)
    requires 0.0 <= r <= f && x.SquareDistance(c) < Sq(r) && o.SquareDistance(c) < Sq(f - r)
    ensures x.SquareDistance(o) < Sq(f)
  {
    hide Point.Dot, Point.SquareMagnitude, Sq, Mul, Point.Minus, Point.Plus;
    var p, q := x.Minus(c), c.Minus(o);
    Apart(x, c, o);
    SquareMagnitudeSign(p);
    SquareMagnitudeSign(q);
    PositiveFromSquare(r, p.SquareMagnitude());
    PositiveFromSquare(f - r, q.SquareMagnitude());
    ProductOfShort(p, q, r, f - r);
    SquareOfSum(p, q);
    SumOfSquare(r, f - r);
    assert r + (f - r) == f;
  }

  // The point of the cached sphere's surface that lies furthest along the first axis.
  function FarPoint(o: Point, f: real): Point { o.(x := o.x + f) }

  lemma FirstShort(v: Point, b: real)
    requires v.SquareMagnitude() < Sq(b) && b > 0.0
    ensures v.x < b
  {
    SquareNonNegative(v.y);
    SquareNonNegative(v.z);
    if v.x >= b {
      ProductMonotone(b, v.x, b);
      ProductMonotone(b, v.x, v.x);
    }
  }

  lemma FarFrom(c: Point, o: Point, f: real)
    ensures FarPoint(o, f).SquareDistance(c) == o.Minus(c).SquareMagnitude() + 2.0 * Mul(f, o.Minus(c).x) + Sq(f)
    ensures o.SquareDistance(c) == o.Minus(c).SquareMagnitude()
  {
  }

  lemma FarPointCovered(c: Point, r: real, o: Point, f: real)
    requires 0.0 <= f < r && o.SquareDistance(c) < Sq(f - r)
    ensures FarPoint(o, f).SquareDistance(c) < Sq(r)
  {
    var v := o.Minus(c);
    SquareOfOpposite(f - r);
    assert -(f - r) == r - f;
    hide Point.SquareMagnitude, Sq, Mul, Point.Minus;
    FarFrom(c, o, f);
    FirstShort(v, r - f);
    ScaledBound(f, v.x, r - f);
    SumOfSquare(f, r - f);
    assert f + (r - f) == r;
  }

  lemma ScaledBound(k: real, x: real, y: real)
    requires k >= 0.0 && x <= y
    ensures Mul(k, x) <= Mul(k, y)
  {
    ProductMonotone(x, y, k);
  }

  lemma AtOffset(o: Point, f: real)
    ensures FarPoint(o, f).SquareDistance(o) == Sq(f)
  {
  }

  // Where the code reuses the cached list, the cached sphere holds the new one if and only if its
  // radius is at least as large: the code squares a difference of radii that may be negative.
  lemma HeldExactlyWhenSmaller(root: Root, s: Sphere, c: Cache)
    requires Reused(root, s, c) && s.radius >= 0.0
    requires root(c.fatRadius2) >= 0.0 && Sq(root(c.fatRadius2)) == c.fatRadius2
    ensures Holds(c.center, c.fatRadius2, s.center, Sq(s.radius)) <==> s.radius <= root(c.fatRadius2)
  {
    hide Sq, Point.SquareDistance;
    var f := root(c.fatRadius2);
    if s.radius <= f {
      forall x: Point | x.SquareDistance(s.center) < Sq(s.radius) ensures x.SquareDistance(c.center) < c.fatRadius2 {
        StaysWithin(x, s.center, s.radius, c.center, f);
      }
    } else {
      FarPointCovered(s.center, s.radius, c.center, f);
      AtOffset(c.center, f);
    }
  }

  // ---- reports of nested spheres

  lemma TouchGrows(t: Triangle, outer: Point, outer2: real, inner: Point, inner2: real)
    requires Holds(outer, outer2, inner, inner2) && Touches(t, inner, inner2)
    ensures Touches(t, outer, outer2)
  {
    hide Point.SquareDistance, At;
    var u: real, v: real :| Barycentric(u, v) && At(t, u, v).SquareDistance(inner) < inner2;
    assert At(t, u, v).SquareDistance(outer) < outer2;
  }

  lemma CornersGrow(b: Box, outer: Point, outer2: real, inner: Point, inner2: real)
    requires Holds(outer, outer2, inner, inner2) && CornersInside(inner, inner2, b)
    ensures CornersInside(outer, outer2, b)
  {
    hide Corner;
    forall ux: bool, uy: bool, uz: bool ensures outer.SquareDistance(Corner(b, ux, uy, uz)) < outer2 {
      var k := Corner(b, ux, uy, uz);
      DistanceTurns(inner, k);
      DistanceTurns(outer, k);
      hide Point.SquareDistance;
      assert inner.SquareDistance(k) < inner2;
    }
  }

  lemma DistanceTurns(p: Point, q: Point)
    ensures p.SquareDistance(q) == q.SquareDistance(p)
  {
  }

  // What is reported for a sphere is reported for every sphere that holds it.
  lemma {:induction false} ReportGrows(t: Tree, m: Mesh, boxed: bool, outer: Point, outer2: real,
                                       inner: Point, inner2: real, p: nat)
    requires Covers(t, m) && Holds(outer, outer2, inner, inner2) && inner2 <= outer2 <= FLT_MAX
    requires p in Reports(t, inner, inner2, m, boxed)
    ensures p in Reports(t, outer, outer2, m, boxed)
    decreases t
  {
    NodeFacts(t, m);
    OnlyTouching(t, inner, inner2, m, boxed);
    hide Covers, BoxGap2, CornersInside, Touches, Degenerate, Holds;
    TouchGrows(m.Tri(p), outer, outer2, inner, inner2);
    if BoxGap2(outer, t.box) > outer2 {
      OutOfReach(outer, outer2, m, t);
    }
    if CornersInside(inner, inner2, t.box) {
      CornersGrow(t.box, outer, outer2, inner, inner2);
    }
    if t.Leaf? {
      ScanOfOne(t.prim, Near(inner, inner2, m));
      ScanOfOne(t.prim, Near(outer, outer2, m));
    } else if !CornersInside(outer, outer2, t.box) {
      if p in Reports(t.pos, inner, inner2, m, boxed) {
        ReportGrows(t.pos, m, boxed, outer, outer2, inner, inner2, p);
      } else {
        ReportGrows(t.neg, m, boxed, outer, outer2, inner, inner2, p);
      }
    }
  }

  // ---- any run of coherent queries for all contacts

  datatype Query = Query(sphere: Sphere, fatCoeff: real) {
    predicate Sensible() {
      sphere.radius >= 0.0 && fatCoeff >= 1.0 && Mul(Sq(sphere.radius), fatCoeff) <= FLT_MAX
    }
  }

  const COHERENT: Flags := Flags(false, true, false, false)

  // The list is what the cached sphere reports.
  ghost predicate Trusted(t: Tree, m: Mesh, boxed: bool, c: Cache)
    requires m.Valid()
  {
    && 0.0 <= c.fatRadius2 <= FLT_MAX
    && c.touched == Reports(t, c.center, c.fatRadius2, m, boxed)
  }

  // Everything the plain query would report is there, and everything there touches the cached sphere.
  ghost predicate Sandwiched(t: Tree, m: Mesh, boxed: bool, s: Sphere, c: Cache)
    requires m.Valid()
  {
    && (forall p <- Reports(t, s.center, Sq(s.radius), m, boxed) :: p in c.touched)
    && (forall p <- c.touched :: p in Prims(t) && Touching(c.center, c.fatRadius2, m)(p))
  }

  // A list that is reused is for a sphere no smaller than the new one.
  predicate Guarded(root: Root, s: Sphere, c: Cache) { Reused(root, s, c) ==> s.radius <= root(c.fatRadius2) }

  lemma FattenedHolds(q: Query)
    requires q.Sensible()
    ensures var fat := Mul(Sq(q.sphere.radius), q.fatCoeff);
            0.0 <= Sq(q.sphere.radius) <= fat && Holds(q.sphere.center, fat, q.sphere.center, Sq(q.sphere.radius))
  {
    SquarePositive(q.sphere.radius);
    hide Sq, Point.SquareDistance;
    ProductMonotone(1.0, q.fatCoeff, Sq(q.sphere.radius));
  }

  lemma SquaresInOrder(a: real, b: real)
    requires 0.0 <= a <= b
    ensures Sq(a) <= Sq(b)
  {
    ProductMonotone(a, b, a);
    ProductMonotone(a, b, b);
  }

  lemma NestedReports(t: Tree, m: Mesh, boxed: bool, outer: Point, outer2: real, inner: Point, inner2: real)
    requires Covers(t, m) && m.Valid() && Holds(outer, outer2, inner, inner2) && inner2 <= outer2 <= FLT_MAX
    ensures forall p <- Reports(t, inner, inner2, m, boxed) :: p in Reports(t, outer, outer2, m, boxed)
    ensures forall p <- Reports(t, outer, outer2, m, boxed) :: p in Prims(t) && Touching(outer, outer2, m)(p)
  {
    hide Covers, Holds, Reports, Touches;
    forall p <- Reports(t, inner, inner2, m, boxed) ensures p in Reports(t, outer, outer2, m, boxed) {
      ReportGrows(t, m, boxed, outer, outer2, inner, inner2, p);
    }
    OnlyTouching(t, outer, outer2, m, boxed);
  }

  lemma EmptyPart(l: seq<nat>, k: seq<nat>)
    requires forall p <- l :: p in k
    ensures k == [] ==> l == []
  {
    if l != [] {
      assert l[0] in k;
    }
  }

  // The cached sphere is the one before, or has the center of the new one and its squared radius times
  // the coefficient.
  lemma CachedSphere(t: Tree, m: Mesh, boxed: bool, root: Root, q: Query, c: Cache)
    requires m.Valid() && q.fatCoeff == c.fatCoeff
    ensures var c', s := Answer(t, m, boxed, root, q.sphere, COHERENT, c), q.sphere;
            || (c'.center == c.center && c'.fatRadius2 == c.fatRadius2)
            || (c'.center == s.center && c'.fatRadius2 == s.radius * s.radius * q.fatCoeff)
  {
    hide Reports, Near, Point.SquareDistance;
  }

  lemma QueryKeepsTrust(t: Tree, m: Mesh, boxed: bool, root: Root, q: Query, c: Cache)
    requires Covers(t, m) && m.Valid() && Trusted(t, m, boxed, c) && q.Sensible() && q.fatCoeff == c.fatCoeff
    requires root(c.fatRadius2) >= 0.0 && Sq(root(c.fatRadius2)) == c.fatRadius2 && Guarded(root, q.sphere, c)
    ensures var c' := Answer(t, m, boxed, root, q.sphere, COHERENT, c);
            Trusted(t, m, boxed, c') && Sandwiched(t, m, boxed, q.sphere, c')
  {
    hide Covers, Reports, Prims, Touches, Sq, Mul, Holds, Point.SquareDistance;
    var s, fat := q.sphere, Mul(Sq(q.sphere.radius), q.fatCoeff);
    if Reused(root, s, c) {
      HeldExactlyWhenSmaller(root, s, c);
      SquaresInOrder(s.radius, root(c.fatRadius2));
      NestedReports(t, m, boxed, c.center, c.fatRadius2, s.center, Sq(s.radius));
      EmptyPart(Reports(t, s.center, Sq(s.radius), m, boxed), c.touched);
    } else {
      FattenedHolds(q);
      NestedReports(t, m, boxed, s.center, fat, s.center, Sq(s.radius));
    }
  }

  // The cache after a run of queries, oldest first; the user may change the coefficient in between.
  ghost function AfterRun(t: Tree, m: Mesh, boxed: bool, root: Root, run: seq<Query>, c: Cache): Cache
    requires m.Valid()
    decreases |run|
  {
    if run == [] then c
    else
      var q := run[|run| - 1];
      Answer(t, m, boxed, root, q.sphere, COHERENT,
             AfterRun(t, m, boxed, root, run[..|run| - 1], c).(fatCoeff := q.fatCoeff))
  }

  // Each query of the run is guarded by the cache it meets.
  ghost predicate RunGuarded(t: Tree, m: Mesh, boxed: bool, root: Root, run: seq<Query>, c: Cache)
    requires m.Valid()
    decreases |run|
  {
    run != [] ==>
      && RunGuarded(t, m, boxed, root, run[..|run| - 1], c)
      && Guarded(root, run[|run| - 1].sphere, AfterRun(t, m, boxed, root, run[..|run| - 1], c))
  }

  function Fresh(fatCoeff: real): Cache { Cache([], ORIGIN, 0.0, fatCoeff) }

  // Nothing is reported of a sphere without radius.
  lemma FreshIsTrusted(t: Tree, m: Mesh, boxed: bool, fatCoeff: real)
    requires Covers(t, m) && m.Valid()
    ensures Trusted(t, m, boxed, Fresh(fatCoeff))
  {
    hide Covers, Reports, Prims;
    OnlyTouching(t, ORIGIN, 0.0, m, boxed);
    forall p: nat ensures !Touching(ORIGIN, 0.0, m)(p) {
      if Touching(ORIGIN, 0.0, m)(p) {
        var u: real, v: real :| Barycentric(u, v) && At(m.Tri(p), u, v).SquareDistance(ORIGIN) < 0.0;
        hide At;
        SquareMagnitudeSign(At(m.Tri(p), u, v).Minus(ORIGIN));
      }
    }
    EmptyPart(Reports(t, ORIGIN, 0.0, m, boxed), []);
  }

  // From a fresh cache on, every answer of every guarded run is right for its sphere.
  lemma {:induction false} RunsAreSandwiched(t: Tree, m: Mesh, boxed: bool, root: Root, run: seq<Query>, coeff: real)
    requires Covers(t, m) && m.Valid() && SquareRoot(root) && forall q <- run :: q.Sensible()
    requires RunGuarded(t, m, boxed, root, run, Fresh(coeff))
    ensures var c := AfterRun(t, m, boxed, root, run, Fresh(coeff));
            && Trusted(t, m, boxed, c)
            && (run != [] ==> Sandwiched(t, m, boxed, run[|run| - 1].sphere, c))
    decreases |run|
  {
    hide Trusted, Sandwiched, Answer, Query.Sensible, Covers, Reports, Guarded;
    FreshIsTrusted(t, m, boxed, coeff);
    if run != [] {
      var q := run[|run| - 1];
      RunsAreSandwiched(t, m, boxed, root, run[..|run| - 1], coeff);
      var before := AfterRun(t, m, boxed, root, run[..|run| - 1], Fresh(coeff));
      OtherCoefficient(t, m, boxed, root, q.sphere, before, q.fatCoeff);
      QueryKeepsTrust(t, m, boxed, root, q, before.(fatCoeff := q.fatCoeff));
    }
  }

  lemma OtherCoefficient(t: Tree, m: Mesh, boxed: bool, root: Root, s: Sphere, c: Cache, coeff: real)
    requires m.Valid() && Trusted(t, m, boxed, c) && SquareRoot(root) && Guarded(root, s, c)
    ensures var c' := c.(fatCoeff := coeff);
            && Trusted(t, m, boxed, c') && Guarded(root, s, c')
            && root(c'.fatRadius2) >= 0.0 && Sq(root(c'.fatRadius2)) == c'.fatRadius2
  {
    hide Reports, Point.SquareDistance, Sq;
  }

  // ---- what an unguarded query does

  // The query keeps the cache trusted and answers between the plain report and the cached sphere.
  ghost predicate KeepsTrust(t: Tree, m: Mesh, boxed: bool, root: Root, q: Query, c: Cache) {
    Covers(t, m) && m.Valid() && Trusted(t, m, boxed, c) ==>
      var c' := Answer(t, m, boxed, root, q.sphere, COHERENT, c);
      Trusted(t, m, boxed, c') && Sandwiched(t, m, boxed, q.sphere, c')
  }

  // A model of one triangle, across the first axis from x.
  function AcrossFrom(x: Point): Mesh {
    Mesh([IndexedTriangle(0, 1, 2)], [x, x.(y := x.y + 1.0), x.(z := x.z + 1.0)])
  }

  function LoneLeaf(x: Point): Tree { Leaf(Box(x, Point(1.0, 1.0, 1.0)), 0) }

  lemma LoneFacts(x: Point)
    ensures var m := AcrossFrom(x);
            && m.Valid() && Covers(LoneLeaf(x), m) && Solid(m, 0) && m.Tri(0).v0 == x
            && forall u: real, v: real :: At(m.Tri(0), u, v).x == x.x
  {
    var m := AcrossFrom(x);
    forall g <- m.faces ensures g == IndexedTriangle(0, 1, 2) {
    }
    assert m.Tri(0).v1.Minus(x) == Point(0.0, 1.0, 0.0) && m.Tri(0).v2.Minus(x) == Point(0.0, 0.0, 1.0);
    forall u: real, v: real ensures At(m.Tri(0), u, v).x == x.x {
      assert (m.Tri(0).v1.x - x.x) * u == 0.0 && (m.Tri(0).v2.x - x.x) * v == 0.0;
    }
  }

  lemma NoNearer(o: Point, f: real, p: Point)
    requires p.x == FarPoint(o, f).x
    ensures p.SquareDistance(o) >= Sq(f)
  {
    DistanceBySquares(p, o);
    SquarePositive(p.y - o.y);
    SquarePositive(p.z - o.z);
  }

  lemma LoneReports(x: Point, boxed: bool, center: Point, radius2: real)
    ensures var m := AcrossFrom(x);
            && m.Valid() && |m.faces| == 1
            && (radius2 <= FLT_MAX ==>
                  (Reports(LoneLeaf(x), center, radius2, m, boxed) != [] <==> Touches(m.Tri(0), center, radius2)))
  {
    LoneFacts(x);
    hide Degenerate, Touches, Reports, Covers;
    var t, m := LoneLeaf(x), AcrossFrom(x);
    if radius2 <= FLT_MAX {
      assert Prims(t) == [0];
      OnlyTouching(t, center, radius2, m, boxed);
      FirstContact(t, center, radius2, m, boxed);
      var found := Reports(t, center, radius2, m, boxed);
      assert found != [] ==> found[0] in found;
      assert 0 in Prims(t);
    }
  }

  // For a sphere and a signature that say reuse: the guard holds if and only if the query keeps the
  // trust of every tree of every mesh.
  lemma KeepsTrustExactlyWhenGuarded(root: Root, q: Query, center: Point, fat2: real)
    requires q.Sensible() && 0.0 <= fat2 <= FLT_MAX && root(fat2) >= 0.0 && Sq(root(fat2)) == fat2
    ensures Guarded(root, q.sphere, Cache([], center, fat2, q.fatCoeff)) <==>
            forall t: Tree, m: Mesh, boxed: bool, touched: seq<nat> ::
              KeepsTrust(t, m, boxed, root, q, Cache(touched, center, fat2, q.fatCoeff))
  {
    hide Sq, Mul, Point.SquareDistance, Reports, Covers, Query.Sensible, Trusted, Sandwiched, Answer;
    if Guarded(root, q.sphere, Cache([], center, fat2, q.fatCoeff)) {
      forall t: Tree, m: Mesh, boxed: bool, touched: seq<nat>
        ensures KeepsTrust(t, m, boxed, root, q, Cache(touched, center, fat2, q.fatCoeff))
      {
        if Covers(t, m) && m.Valid() && Trusted(t, m, boxed, Cache(touched, center, fat2, q.fatCoeff)) {
          QueryKeepsTrust(t, m, boxed, root, q, Cache(touched, center, fat2, q.fatCoeff));
        }
      }
    } else {
      var x := FarPoint(center, root(fat2));
      LosesTrust(root, q, center, fat2);
      assert !KeepsTrust(LoneLeaf(x), AcrossFrom(x), true, root, q, Cache([], center, fat2, q.fatCoeff));
    }
  }

  // A triangle that touches the new sphere but not the cached one is listed under the cached one.
  lemma LosesTrust(root: Root, q: Query, center: Point, fat2: real)
    requires q.Sensible() && 0.0 <= fat2 <= FLT_MAX && root(fat2) >= 0.0 && Sq(root(fat2)) == fat2
    requires !Guarded(root, q.sphere, Cache([], center, fat2, q.fatCoeff))
    ensures var x := FarPoint(center, root(fat2));
            !KeepsTrust(LoneLeaf(x), AcrossFrom(x), true, root, q, Cache([], center, fat2, q.fatCoeff))
  {
    var s, f := q.sphere, root(fat2);
    var x := FarPoint(center, f);
    var m := AcrossFrom(x);
    hide Reports, Covers, Degenerate, Sq, Mul, Point.SquareDistance, FarPoint, AcrossFrom, LoneLeaf;
    FattenedHolds(q);
    LoneFacts(x);
    LoneReports(x, true, center, fat2);
    LoneReports(x, true, s.center, Sq(s.radius));
    FarPointCovered(s.center, s.radius, center, f);
    CornerTouches(m.Tri(0), s.center, Sq(s.radius));
    forall u: real, v: real ensures At(m.Tri(0), u, v).SquareDistance(center) >= fat2 {
      NoNearer(center, f, At(m.Tri(0), u, v));
    }
  }

  lemma CornerTouches(t: Triangle, center: Point, radius2: real)
    requires t.v0.SquareDistance(center) < radius2
    ensures Touches(t, center, radius2)
  {
    assert Barycentric(0.0, 0.0);
    assert At(t, 0.0, 0.0) == t.v0;
  }

  // The first report of the run that is not empty.
  ghost function FirstFound(t: Tree, m: Mesh, boxed: bool, run: seq<Query>): seq<nat>
    requires m.Valid()
    decreases |run|
  {
    if run == [] then []
    else
      var s, earlier := run[|run| - 1].sphere, FirstFound(t, m, boxed, run[..|run| - 1]);
      if earlier != [] then earlier else Reports(t, s.center, Sq(s.radius), m, boxed)
  }

  // A fresh cache is never filled by spheres around the origin of the model: after the first report
  // that is not empty, every such query repeats it.
  lemma {:induction false} FreshCacheSticks(t: Tree, m: Mesh, boxed: bool, root: Root, run: seq<Query>, coeff: real)
    requires m.Valid() && root(0.0) == 0.0
    requires forall q <- run :: ORIGIN.SquareDistance(q.sphere.center) < Sq(q.sphere.radius)
    ensures var c := AfterRun(t, m, boxed, root, run, Fresh(coeff));
            c.touched == FirstFound(t, m, boxed, run) && c.center == ORIGIN && c.fatRadius2 == 0.0
    decreases |run|
  {
    if run != [] {
      var q := run[|run| - 1];
      FreshCacheSticks(t, m, boxed, root, run[..|run| - 1], coeff);
      SquareOfOpposite(q.sphere.radius);
      assert q in run;
      assert 0.0 - q.sphere.radius == -q.sphere.radius;
      hide Sq, Point.SquareDistance, Reports;
    }
  }
}
