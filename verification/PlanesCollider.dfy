// Queries against a set of planes, with clip masks that shrink down the tree.
module PlanesCollider {
  import opened RealArithmetic
  import opened Geometry
  import opened RigidTransforms
  import opened WorldTransforms
  import opened BoxTree
  import opened FlatTree
  import opened Collider
  import opened VolumeCollider
  import opened ClipMasks

  datatype Plane = Plane(n: Point, d: real) {
    function Distance(p: Point): real { p.Dot(n) + d }
  }

  // ---- planes in the space of the model

  // As the code moves a plane: the turned normal, and an offset rebuilt from a point of the plane
  // found along it.
  function TransformPlane(pl: Plane, r: Rigid): Plane {
    var n := r.rot.Apply(pl.n);
    Plane(n, n.Times(pl.d).Minus(r.trans).Dot(n))
  }

  function PlaneInModel(pl: Plane, world: World): Plane {
    if world.Set? then TransformPlane(pl, Inverse(world.matrix)) else pl
  }

  function InModel(planes: seq<Plane>, world: World): (r: seq<Plane>)
    ensures |r| == |planes|
  {
    seq(|planes|, k requires 0 <= k < |planes| => PlaneInModel(planes[k], world))
  }

  // The distance the moved plane measures scales its offset by the square of the normal.
  lemma MovedDistance(pl: Plane, w: Rigid, p: Point)
    requires w.rot.Rotation()
    ensures TransformPlane(pl, Inverse(w)).Distance(p) == w.Apply(p).Dot(pl.n) + pl.d * pl.n.Dot(pl.n)
  {
    hide Inverse, Matrix3.Rotation, Matrix3.Apply, Point.Dot, Point.Times, Rigid.Apply;
    var inv, q := Inverse(w), w.Apply(p);
    var n := inv.rot.Apply(pl.n);
    InverseRotates(w);
    InverseUndoes(w, p);
    KeepsDot(inv.rot, pl.n, pl.n);
    KeepsDot(inv.rot, q, pl.n);
    TurnedOnly(inv, q, p);
    OffsetSplits(n, pl.d, inv.trans, p);
    DistanceIs(TransformPlane(pl, inv), p);
    assert pl.d * n.Dot(n) == pl.d * pl.n.Dot(pl.n);
  }

  lemma TurnedOnly(r: Rigid, q: Point, p: Point)
    requires r.Apply(q) == p
    ensures r.rot.Apply(q) == p.Minus(r.trans)
  {
    hide Matrix3.Apply;
  }

  lemma OffsetSplits(n: Point, d: real, t: Point, p: Point)
    ensures p.Dot(n) + n.Times(d).Minus(t).Dot(n) == p.Minus(t).Dot(n) + d * n.Dot(n)
  {
  }

  // So a moved plane is the plane exactly when its normal has unit length or its offset is zero.
  lemma RightExactlyOnUnit(pl: Plane, w: Rigid)
    requires w.rot.Rotation()
    ensures (forall p: Point :: TransformPlane(pl, Inverse(w)).Distance(p) == pl.Distance(w.Apply(p))) <==>
            pl.n.Dot(pl.n) == 1.0 || pl.d == 0.0
  {
    hide TransformPlane, Plane.Distance, Rigid.Apply, Matrix3.Rotation, Inverse;
    forall p: Point
      ensures TransformPlane(pl, Inverse(w)).Distance(p) - pl.Distance(w.Apply(p)) == pl.d * pl.n.Dot(pl.n) - pl.d
    {
      MovedDistance(pl, w, p);
      DistanceIs(pl, w.Apply(p));
    }
    hide Point.Dot;
    var o := Point(0.0, 0.0, 0.0);
    assert TransformPlane(pl, Inverse(w)).Distance(o) - pl.Distance(w.Apply(o)) == pl.d * pl.n.Dot(pl.n) - pl.d;
    UnitOrZero(pl.d, pl.n.Dot(pl.n));
  }

  lemma DistanceIs(pl: Plane, p: Point)
    ensures pl.Distance(p) == p.Dot(pl.n) + pl.d
  {
  }

  lemma UnitOrZero(d: real, s: real)
    ensures d * s - d == 0.0 <==> s == 1.0 || d == 0.0
  {
    assert d * s - d == d * (s - 1.0);
    if d * s - d == 0.0 && s != 1.0 {
      ZeroProduct(d, s - 1.0);
    }
  }

  // Some corner of the triangle is not in front of the plane.
  predicate CornerBehind(pl: Plane, t: Triangle) {
    !(pl.Distance(t.v0) > 0.0 && pl.Distance(t.v1) > 0.0 && pl.Distance(t.v2) > 0.0)
  }

  method PlanesInModel(planes: seq<Plane>, world: World) returns (moved: seq<Plane>)
    ensures moved == InModel(planes, world)
  {
    hide TransformPlane, Inverse;
    moved := planes;
    if world.Set? {
      var invWorld := InvertPRMatrix(world.matrix);
      for i := 0 to |planes|
        invariant |moved| == |planes|
        invariant forall k :: 0 <= k < i ==> moved[k] == TransformPlane(planes[k], invWorld)
      {
        moved := moved[i := TransformPlane(planes[i], invWorld)];
      }
    }
  }

  // Whether moving the plane leaves what it keeps: its normal has unit length, its offset is zero, or
  // it has no normal and keeps everything.
  predicate Movable(pl: Plane) {
    pl.n.Dot(pl.n) == 1.0 || pl.d == 0.0 || (pl.n == Point(0.0, 0.0, 0.0) && pl.d < 0.0)
  }

  // A plane keeps the same triangles in the space of the model as where they stand in the world if
  // and only if it is movable or the query has no world matrix.
  lemma KeepsExactlyWhenMovable(pl: Plane, world: World)
    requires world.Value().rot.Rotation()
    ensures !world.Set? || Movable(pl) <==>
            forall t: Triangle :: CornerBehind(PlaneInModel(pl, world), t) == CornerBehind(pl, Moved(t, world.Value()))
  {
    hide Moved, Matrix3.Rotation, PlaneInModel, CornerBehind, Movable;
    if !world.Set? || Movable(pl) {
      forall t: Triangle
        ensures CornerBehind(PlaneInModel(pl, world), t) == CornerBehind(pl, Moved(t, world.Value()))
      {
        CornerInWorld(pl, world, t);
      }
    } else {
      var t := Misjudged(pl, world);
    }
  }

  lemma CornerInWorld(pl: Plane, world: World, t: Triangle)
    requires world.Value().rot.Rotation() && (!world.Set? || Movable(pl))
    ensures CornerBehind(PlaneInModel(pl, world), t) == CornerBehind(pl, Moved(t, world.Value()))
  {
    hide Rigid.Apply, Matrix3.Rotation, Inverse, TransformPlane, Plane.Distance, Point.Dot, Movable;
    if world.Set? {
      SideOfMovable(pl, world.matrix, t.v0);
      SideOfMovable(pl, world.matrix, t.v1);
      SideOfMovable(pl, world.matrix, t.v2);
    } else {
      IdentityApplies(t.v0);
      IdentityApplies(t.v1);
      IdentityApplies(t.v2);
    }
  }

  // The two distances of a point whose place in the world has the given product with the normal.
  lemma BothDistances(pl: Plane, w: Rigid, p: Point)
    requires w.rot.Rotation()
    ensures pl.Distance(w.Apply(p)) == w.Apply(p).Dot(pl.n) + pl.d
    ensures TransformPlane(pl, Inverse(w)).Distance(p) == w.Apply(p).Dot(pl.n) + Mul(pl.d, pl.n.Dot(pl.n))
  {
    hide TransformPlane, Plane.Distance, Rigid.Apply, Matrix3.Rotation, Inverse;
    MovedDistance(pl, w, p);
    DistanceIs(pl, w.Apply(p));
  }

  lemma SideOfMovable(pl: Plane, w: Rigid, p: Point)
    requires w.rot.Rotation() && Movable(pl)
    ensures TransformPlane(pl, Inverse(w)).Distance(p) > 0.0 <==> pl.Distance(w.Apply(p)) > 0.0
  {
    BothDistances(pl, w, p);
    WithoutNormal(w.Apply(p));
    hide TransformPlane, Plane.Distance, Rigid.Apply, Matrix3.Rotation, Inverse, Point.Dot;
    assert Mul(pl.d, 1.0) == pl.d && Mul(0.0, pl.n.Dot(pl.n)) == 0.0 && Mul(pl.d, 0.0) == 0.0;
  }

  lemma WithoutNormal(p: Point)
    ensures p.Dot(Point(0.0, 0.0, 0.0)) == 0.0
  {
  }

  // The squared normal is positive, and some point has any given product with the normal.
  lemma PointAtProduct(n: Point, k: real) returns (p: Point)
    requires n != Point(0.0, 0.0, 0.0)
    ensures p.Dot(n) == k
  {
    SquarePositive(n.x);
    SquarePositive(n.y);
    SquarePositive(n.z);
    DotBySquares(n);
    p := n.Times(k / n.Dot(n));
    TimesDot(n, k / n.Dot(n), n);
  }

  lemma DotBySquares(n: Point)
    ensures n.Dot(n) == Sq(n.x) + Sq(n.y) + Sq(n.z)
  {
  }

  lemma TimesDot(p: Point, k: real, q: Point)
    ensures p.Times(k).Dot(q) == k * p.Dot(q)
  {
  }

  // A place in the world that a plane which is not movable has on different sides before and after.
  lemma OnTwoSides(pl: Plane) returns (q: Point)
    requires !Movable(pl)
    ensures (q.Dot(pl.n) + pl.d > 0.0) != (q.Dot(pl.n) + Mul(pl.d, pl.n.Dot(pl.n)) > 0.0)
  {
    var s := pl.n.Dot(pl.n);
    if pl.n == Point(0.0, 0.0, 0.0) {
      q := pl.n;
      WithoutNormal(q);
      hide Point.Dot;
      assert Mul(pl.d, 0.0) == 0.0;
    } else {
      hide Point.Dot;
      UnitOrZero(pl.d, s);
      q := PointAtProduct(pl.n, if pl.d < Mul(pl.d, s) then -pl.d else -Mul(pl.d, s));
    }
  }

  // So it misjudges a triangle there that is a single point.
  lemma Misjudged(pl: Plane, world: World) returns (t: Triangle)
    requires world.Set? && world.matrix.rot.Rotation() && !Movable(pl)
    ensures CornerBehind(PlaneInModel(pl, world), t) != CornerBehind(pl, Moved(t, world.Value()))
  {
    hide TransformPlane, Plane.Distance, Rigid.Apply, Matrix3.Rotation, Inverse, Point.Dot, Mul, Movable;
    var q := OnTwoSides(pl);
    var p := Inverse(world.matrix).Apply(q);
    InverseUndoes(world.matrix, q);
    BothDistances(pl, world.matrix, p);
    t := Triangle(p, p, p);
  }

  // So a list of movable planes keeps a triangle in the space of the model just when it keeps it
  // where it stands.
  lemma KeptInWorld(planes: seq<Plane>, world: World, t: Triangle)
    requires world.Value().rot.Rotation()
    requires !world.Set? || forall pl <- planes :: Movable(pl)
    ensures PassesAll(InModel(planes, world), t) <==> PassesAll(planes, Moved(t, world.Value()))
  {
    hide CornerBehind, Matrix3.Rotation, PlaneInModel, Movable, Moved, World.Value;
    forall k | 0 <= k < |planes|
      ensures CornerBehind(InModel(planes, world)[k], t) == CornerBehind(planes[k], Moved(t, world.Value()))
    {
      assert planes[k] in planes;
      CornerInWorld(planes[k], world, t);
    }
  }

  // The triangle is kept by every plane of the mask.
  ghost predicate PassesMask(planes: seq<Plane>, mask: nat, t: Triangle) {
    forall k :: 0 <= k < |planes| && HasBit(mask, k) ==> CornerBehind(planes[k], t)
  }

  // The planes missing from the mask keep the triangle.
  ghost predicate KeptByRest(planes: seq<Plane>, mask: nat, t: Triangle) {
    forall k :: 0 <= k < |planes| && !HasBit(mask, k) ==> CornerBehind(planes[k], t)
  }

  // The triangle is kept by every plane: what each triangle alone would be tested for.
  predicate PassesAll(planes: seq<Plane>, t: Triangle) {
    forall k :: 0 <= k < |planes| ==> CornerBehind(planes[k], t)
  }

  predicate Keeps(planes: seq<Plane>, m: Mesh, p: nat)
    requires m.Valid()
  {
    p < |m.faces| && PassesAll(planes, m.Tri(p))
  }

  // Planes missing from the mask keep every triangle of the subtree.
  ghost predicate Settled(planes: seq<Plane>, mask: nat, m: Mesh, t: Tree)
    requires m.Valid()
  {
    forall p <- Prims(t), k | 0 <= k < |planes| && !HasBit(mask, k) ::
      p < |m.faces| && CornerBehind(planes[k], m.Tri(p))
  }

  // Reach of a box along a normal, and signed distance of its center.
  function Reach(pl: Plane, e: Point): real {
    e.x * Abs(pl.n.x) + e.y * Abs(pl.n.y) + e.z * Abs(pl.n.z)
  }

  function CenterDistance(pl: Plane, c: Point): real {
    c.x * pl.n.x + c.y * pl.n.y + c.z * pl.n.z + pl.d
  }

  lemma OffsetOnAxis(p: real, c: real, e: real, n: real)
    requires c - e <= p <= c + e
    ensures -(e * Abs(n)) <= p * n - c * n <= e * Abs(n)
  {
    if n >= 0.0 {
      ProductMonotone(c - e, p, n);
      ProductMonotone(p, c + e, n);
      assert (c - e) * n == c * n - e * n && (c + e) * n == c * n + e * n;
    } else {
      ProductMonotone(c - e, p, -n);
      ProductMonotone(p, c + e, -n);
      assert (c - e) * -n == e * n - c * n && (c + e) * -n == -(c * n) - e * n;
    }
  }

  // Points of the box lie within its reach of its center's distance.
  lemma DistanceInBox(pl: Plane, b: Box, p: Point)
    requires InBox(p, b)
    ensures CenterDistance(pl, b.center) - Reach(pl, b.extents) <= pl.Distance(p)
            <= CenterDistance(pl, b.center) + Reach(pl, b.extents)
  {
    hide Abs;
    OffsetOnAxis(p.x, b.center.x, b.extents.x, pl.n.x);
    OffsetOnAxis(p.y, b.center.y, b.extents.y, pl.n.y);
    OffsetOnAxis(p.z, b.center.z, b.extents.z, pl.n.z);
  }

  // A plane that has the whole box in front keeps no triangle in it.
  lemma BoxInFront(pl: Plane, b: Box, t: Triangle)
    requires Reach(pl, b.extents) < CenterDistance(pl, b.center) && Encloses(b, t)
    ensures !CornerBehind(pl, t)
  {
    hide Reach, CenterDistance, Plane.Distance;
    DistanceInBox(pl, b, t.v0);
    DistanceInBox(pl, b, t.v1);
    DistanceInBox(pl, b, t.v2);
  }

  // A plane that has the whole box behind keeps every triangle in it.
  lemma BoxBehind(pl: Plane, b: Box, t: Triangle)
    requires CenterDistance(pl, b.center) <= -Reach(pl, b.extents) && Encloses(b, t)
    ensures CornerBehind(pl, t)
  {
    hide Reach, CenterDistance, Plane.Distance;
    DistanceInBox(pl, b, t.v0);
  }

  // The corner of a box that lies furthest along, or against, the normal.
  function ExtremeCorner(pl: Plane, b: Box, along: bool): Point {
    Point(if (pl.n.x >= 0.0) == along then b.center.x + b.extents.x else b.center.x - b.extents.x,
          if (pl.n.y >= 0.0) == along then b.center.y + b.extents.y else b.center.y - b.extents.y,
          if (pl.n.z >= 0.0) == along then b.center.z + b.extents.z else b.center.z - b.extents.z)
  }

  lemma ExtremeOnAxis(c: real, e: real, n: real, along: bool)
    ensures (if (n >= 0.0) == along then c + e else c - e) * n == c * n + (if along then e * Abs(n) else -(e * Abs(n)))
  {
  }

  lemma ExtremeDistance(pl: Plane, b: Box, along: bool)
    ensures pl.Distance(ExtremeCorner(pl, b, along)) ==
            CenterDistance(pl, b.center) + if along then Reach(pl, b.extents) else -Reach(pl, b.extents)
  {
    ExtremeOnAxis(b.center.x, b.extents.x, pl.n.x, along);
    ExtremeOnAxis(b.center.y, b.extents.y, pl.n.y, along);
    ExtremeOnAxis(b.center.z, b.extents.z, pl.n.z, along);
    hide Abs;
  }

  // A box is culled by a plane exactly when all its points are in front, and the plane is dropped
  // exactly when none is.
  lemma BoxSides(pl: Plane, b: Box)
    requires b.extents.x >= 0.0 && b.extents.y >= 0.0 && b.extents.z >= 0.0
    ensures FrontOf(pl, b) <==> forall p: Point :: InBox(p, b) ==> pl.Distance(p) > 0.0
    ensures !FrontOf(pl, b) && !Straddles(pl, b) <==> forall p: Point :: InBox(p, b) ==> pl.Distance(p) <= 0.0
  {
    ExtremeDistance(pl, b, true);
    ExtremeDistance(pl, b, false);
    assert InBox(ExtremeCorner(pl, b, true), b) && InBox(ExtremeCorner(pl, b, false), b);
    hide Reach, CenterDistance, Plane.Distance, ExtremeCorner, InBox;
    forall p: Point | InBox(p, b)
      ensures CenterDistance(pl, b.center) - Reach(pl, b.extents) <= pl.Distance(p)
              <= CenterDistance(pl, b.center) + Reach(pl, b.extents)
    {
      DistanceInBox(pl, b, p);
    }
    ReachSign(pl, b.extents);
  }

  lemma ReachSign(pl: Plane, e: Point)
    requires e.x >= 0.0 && e.y >= 0.0 && e.z >= 0.0
    ensures Reach(pl, e) >= 0.0
  {
    ProductNonNegative(e.x, Abs(pl.n.x));
    ProductNonNegative(e.y, Abs(pl.n.y));
    ProductNonNegative(e.z, Abs(pl.n.z));
  }

  predicate FrontOf(pl: Plane, b: Box) { Reach(pl, b.extents) < CenterDistance(pl, b.center) }

  predicate Straddles(pl: Plane, b: Box) { !FrontOf(pl, b) && -Reach(pl, b.extents) < CenterDistance(pl, b.center) }

  // No active plane has the box in front, and those the box straddles stay active.
  ghost predicate Narrowed(planes: seq<Plane>, mask: nat, out: nat, b: Box) {
    && out < Pow2(|planes|)
    && (forall k :: 0 <= k < |planes| && HasBit(mask, k) ==> !FrontOf(planes[k], b))
    && (forall k :: 0 <= k < |planes| ==> (HasBit(out, k) <==> HasBit(mask, k) && Straddles(planes[k], b)))
  }

  ghost predicate SomeInFront(planes: seq<Plane>, mask: nat, b: Box) {
    exists k :: 0 <= k < |planes| && HasBit(mask, k) && FrontOf(planes[k], b)
  }

  function FullMaskOf(n: nat): nat { Pow2(n) - 1 }

  class PlanesQuery {
    const volume: Volume
    var mPlanes: seq<Plane>

    ghost predicate Ready()
      reads this, volume
    {
      volume.mesh.Valid() && |mPlanes| < 32
    }

    constructor (volume: Volume)
      ensures this.volume == volume && mPlanes == []
    {
      this.volume := volume;
      mPlanes := [];
    }

    // Whether no active plane has the box in front; the planes it straddles stay active.
    method PlanesAABBOverlap(center: Point, extents: Point, inClipMask: nat) returns (overlap: bool, outClipMask: nat)
      requires |mPlanes| < 32 && inClipMask < Pow2(|mPlanes|)
      modifies volume`mNbVolumeBVTests
      ensures if overlap then Narrowed(mPlanes, inClipMask, outClipMask, Box(center, extents))
              else SomeInFront(mPlanes, inClipMask, Box(center, extents))
    {
      volume.mNbVolumeBVTests := volume.mNbVolumeBVTests + 1;
      hide Reach, CenterDistance, Pow2;
      ghost var b := Box(center, extents);
      ghost var n := |mPlanes|;
      var p: nat := 0;
      var mask: nat := 1;
      var tmp: nat := 0;
      outClipMask := 0;
      NoBitsInZero();
      PowerBounds(0, n);
      while mask <= inClipMask
        invariant 0 <= p <= n && mask == Pow2(p)
        invariant tmp < Pow2(n)
        invariant forall k :: 0 <= k < p && HasBit(inClipMask, k) ==> !FrontOf(mPlanes[k], b)
        invariant forall k: nat :: HasBit(tmp, k) <==> k < p && HasBit(inClipMask, k) && Straddles(mPlanes[k], b)
        decreases n - p
      {
        PowerBounds(p, n);
        AndWithPower(inClipMask, p);
        if BitAnd(inClipMask, mask) != 0 {
          var pl := mPlanes[p];
          var np := extents.x * Abs(pl.n.x) + extents.y * Abs(pl.n.y) + extents.z * Abs(pl.n.z);
          var mp := center.x * pl.n.x + center.y * pl.n.y + center.z * pl.n.z + pl.d;
          ReachOf(pl, b, np, mp);
          if np < mp {
            overlap := false;
            return;
          }
          if -np < mp {
            RecordBit(tmp, p, n);
            tmp := BitOr(tmp, mask);
          }
        }
        mask := (mask + mask) % WORD32;
        p := p + 1;
      }
      HighBitsClear(inClipMask, p);
      outClipMask := tmp;
      overlap := true;
    }

    // Whether every active plane keeps the triangle.
    method PlanesTriOverlap(t: Triangle, inClipMask: nat) returns (overlap: bool)
      requires |mPlanes| < 32 && inClipMask < Pow2(|mPlanes|)
      modifies volume`mNbVolumePrimTests
      ensures overlap == PassesMask(mPlanes, inClipMask, t)
    {
      volume.mNbVolumePrimTests := volume.mNbVolumePrimTests + 1;
      hide Pow2, Plane.Distance;
      var p: nat := 0;
      var mask: nat := 1;
      PowerBounds(0, |mPlanes|);
      while mask <= inClipMask
        invariant 0 <= p <= |mPlanes| && mask == Pow2(p)
        invariant forall k :: 0 <= k < p && HasBit(inClipMask, k) ==> CornerBehind(mPlanes[k], t)
        decreases |mPlanes| - p
      {
        PowerBounds(p, |mPlanes|);
        AndWithPower(inClipMask, p);
        if BitAnd(inClipMask, mask) != 0 {
          var d0 := mPlanes[p].Distance(t.v0);
          var d1 := mPlanes[p].Distance(t.v1);
          var d2 := mPlanes[p].Distance(t.v2);
          if d0 > 0.0 && d1 > 0.0 && d2 > 0.0 {
            return false;
          }
        }
        mask := (mask + mask) % WORD32;
        p := p + 1;
      }
      HighBitsClear(inClipMask, p);
      return true;
    }

    method PlanesPrim(prim: nat, clipMask: nat)
      requires Ready() && prim < |volume.mesh.faces| && clipMask < Pow2(|mPlanes|)
      requires KeptByRest(mPlanes, clipMask, volume.mesh.Tri(prim))
      modifies volume
      ensures if Keeps(mPlanes, volume.mesh, prim)
              then volume.mFlags == old(volume.mFlags).Touched()
                   && volume.mTouchedPrimitives == old(volume.mTouchedPrimitives) + [prim]
              else volume.mFlags == old(volume.mFlags) && volume.mTouchedPrimitives == old(volume.mTouchedPrimitives)
    {
      hide CornerBehind, Pow2, HasBit;
      var overlap := PlanesTriOverlap(volume.mesh.Tri(prim), clipMask);
      if overlap {
        volume.Touch(prim);
      }
    }


    method CollideNode(flat: Flat, node: nat, clipMask: nat, ghost t: Tree)
      requires Ready() && !volume.mFlags.ContactFound()
      requires flat.Holds(node, t) && Covers(t, volume.mesh)
      requires clipMask < Pow2(|mPlanes|) && Settled(mPlanes, clipMask, volume.mesh, t)
      modifies volume
      ensures volume.Scanned(Prims(t), Kept(mPlanes, volume.mesh))
      decreases t
    {
      hide Pow2, HasBit, Settled, Covers, Prims, Narrowed, SomeInFront, Keeps, KeptByRest, Accepted, ScanStep, Report,
           Flat.Holds, Flat.At, Flat.Points, IsLeafWord, PrimitiveOf;
      HoldsStep(flat, node, t);
      ghost var m, keep := volume.mesh, Kept(mPlanes, volume.mesh);
      ghost var touched, flags := volume.mTouchedPrimitives, volume.mFlags;
      NodeFacts(t, m);
      var n := flat.At(node);
      var overlap, outClipMask := PlanesAABBOverlap(n.box.center, n.box.extents, clipMask);
      if !overlap {
        Culled(mPlanes, clipMask, m, t);
        StepOverNone(touched, flags, Prims(t), keep);
        return;
      }
      MaskStaysSettled(mPlanes, clipMask, outClipMask, m, t);
      if outClipMask == 0 {
        AllKept(mPlanes, m, t);
        StepOverAll(touched, flags, Prims(t), keep);
        volume.mFlags := volume.mFlags.Touched();
        volume.Dump(flat, node, t);
        return;
      }
      if IsLeafWord(n.data) {
        SettledChildren(mPlanes, clipMask, m, t);
        PlanesPrim(PrimitiveOf(n.data), clipMask);
        StepOverOne(touched, flags, t.prim, keep);
      } else {
        SettledChildren(mPlanes, outClipMask, m, t);
        CollideNode(flat, n.data, outClipMask, t.pos);
        ghost var touched1, flags1 := volume.mTouchedPrimitives, volume.mFlags;
        if !volume.mFlags.ContactFound() {
          CollideNode(flat, n.data + NODE_SIZE, outClipMask, t.neg);
        }
        StepOverBoth(touched, flags, touched1, flags1, volume.mTouchedPrimitives, volume.mFlags, Prims(t.pos),
                     Prims(t.neg), keep);
      }
    }

    method CollideNoLeafNode(flat: NoLeafFlat, node: nat, clipMask: nat, ghost t: Tree)
      requires Ready() && !volume.mFlags.ContactFound()
      requires flat.Holds(node, t) && Covers(t, volume.mesh)
      requires clipMask < Pow2(|mPlanes|) && Settled(mPlanes, clipMask, volume.mesh, t)
      modifies volume
      ensures volume.Scanned(Prims(t), Kept(mPlanes, volume.mesh))
      decreases t, 0
    {
      hide Pow2, HasBit, Settled, Covers, Prims, Narrowed, SomeInFront, Keeps, KeptByRest, Accepted, ScanStep, Report,
           NoLeafFlat.Holds, NoLeafFlat.HoldsChild, NoLeafFlat.At, NoLeafFlat.Points, IsLeafWord, PrimitiveOf;
      NoLeafHoldsStep(flat, node, t);
      ghost var m, keep := volume.mesh, Kept(mPlanes, volume.mesh);
      ghost var touched, flags := volume.mTouchedPrimitives, volume.mFlags;
      NodeFacts(t, m);
      var n := flat.At(node);
      var overlap, outClipMask := PlanesAABBOverlap(n.box.center, n.box.extents, clipMask);
      if !overlap {
        Culled(mPlanes, clipMask, m, t);
        StepOverNone(touched, flags, Prims(t), keep);
        return;
      }
      MaskStaysSettled(mPlanes, clipMask, outClipMask, m, t);
      if outClipMask == 0 {
        AllKept(mPlanes, m, t);
        StepOverAll(touched, flags, Prims(t), keep);
        volume.mFlags := volume.mFlags.Touched();
        volume.DumpNoLeaf(flat, node, t);
        return;
      }
      SettledChildren(mPlanes, clipMask, m, t);
      SettledChildren(mPlanes, outClipMask, m, t);
      CollideNoLeafChild(flat, n.data, clipMask, outClipMask, t.pos);
      ghost var touched1, flags1 := volume.mTouchedPrimitives, volume.mFlags;
      if !volume.mFlags.ContactFound() {
        CollideNoLeafChild(flat, n.data2, clipMask, outClipMask, t.neg);
      }
      StepOverBoth(touched, flags, touched1, flags1, volume.mTouchedPrimitives, volume.mFlags, Prims(t.pos),
                   Prims(t.neg), keep);
    }

    // A leaf is tested against the mask its parent came with, a node gets the smaller one.
    method CollideNoLeafChild(flat: NoLeafFlat, word: nat, clipMask: nat, outClipMask: nat, ghost t: Tree)
      requires Ready() && !volume.mFlags.ContactFound()
      requires flat.HoldsChild(word, t) && Covers(t, volume.mesh)
      requires clipMask < Pow2(|mPlanes|) && Settled(mPlanes, clipMask, volume.mesh, t)
      requires outClipMask < Pow2(|mPlanes|) && Settled(mPlanes, outClipMask, volume.mesh, t)
      modifies volume
      ensures volume.Scanned(Prims(t), Kept(mPlanes, volume.mesh))
      decreases t, 1
    {
      hide Pow2, HasBit, Settled, Covers, Prims, Keeps, KeptByRest, Accepted;
      NodeFacts(t, volume.mesh);
      if IsLeafWord(word) {
        SettledChildren(mPlanes, clipMask, volume.mesh, t);
        ScanOfOne(t.prim, Kept(mPlanes, volume.mesh));
        PlanesPrim(PrimitiveOf(word), clipMask);
      } else {
        CollideNoLeafNode(flat, word, outClipMask, t);
      }
    }

    // A whole query with planes already in model space.
    method Collide(planes: seq<Plane>, world: World, flat: Flat, ghost t: Tree) returns (ok: bool)
      requires volume.mesh.Valid() && |planes| < 32 && Covers(t, volume.mesh) && flat.Holds(flat.base, t)
      requires forall p <- volume.mTouchedPrimitives :: p in Prims(t)
      modifies this, volume
      ensures ok == (planes != [])
      ensures ok ==> Answered(InModel(planes, world), Prims(t), old(volume.mTouchedPrimitives), old(volume.mFlags))
      ensures ok ==> Answers(old(volume.mFlags), Prims(t), Kept(InModel(planes, world), volume.mesh),
                             volume.mTouchedPrimitives)
      ensures !ok ==> volume.mTouchedPrimitives == old(volume.mTouchedPrimitives)
    {
      hide Pow2, Settled, Covers, Prims, Keeps, FullMaskOf, Accepted, PlaneInModel;
      if planes == [] {
        return false;
      }
      CachedFaces(volume.mesh, t, volume.mTouchedPrimitives);
      AnswerIsRight(InModel(planes, world), Prims(t), volume.mTouchedPrimitives, volume.mFlags);
      var status := InitQuery(planes, world);
      if !status {
        FullMaskSettled(mPlanes, volume.mesh, t);
        CollideNode(flat, flat.base, FullMaskOf(|planes|), t);
      }
      return true;
    }

    method CollideNoLeaf(planes: seq<Plane>, world: World, flat: NoLeafFlat, ghost t: Tree) returns (ok: bool)
      requires volume.mesh.Valid() && |planes| < 32 && Covers(t, volume.mesh) && flat.Holds(flat.base, t)
      requires forall p <- volume.mTouchedPrimitives :: p in Prims(t)
      modifies this, volume
      ensures ok == (planes != [])
      ensures ok ==> Answered(InModel(planes, world), Prims(t), old(volume.mTouchedPrimitives), old(volume.mFlags))
      ensures ok ==> Answers(old(volume.mFlags), Prims(t), Kept(InModel(planes, world), volume.mesh),
                             volume.mTouchedPrimitives)
      ensures !ok ==> volume.mTouchedPrimitives == old(volume.mTouchedPrimitives)
    {
      hide Pow2, Settled, Covers, Prims, Keeps, FullMaskOf, Accepted, PlaneInModel;
      if planes == [] {
        return false;
      }
      CachedFaces(volume.mesh, t, volume.mTouchedPrimitives);
      AnswerIsRight(InModel(planes, world), Prims(t), volume.mTouchedPrimitives, volume.mFlags);
      var status := InitQuery(planes, world);
      if !status {
        FullMaskSettled(mPlanes, volume.mesh, t);
        CollideNoLeafNode(flat, flat.base, FullMaskOf(|planes|), t);
      }
      return true;
    }

    // With both coherence and first contact on, the face touched last is tried first.
    ghost predicate CachedFace(planes: seq<Plane>, touched: seq<nat>, flags: Flags)
      requires volume.mesh.Valid()
    {
      flags.temporalCoherence && flags.firstContact && touched != [] && Keeps(planes, volume.mesh, touched[0])
    }

    // Whatever was touched before, in first-contact mode one triangle that is kept is reported if and
    // only if there is one.
    lemma AnswerIsRight(planes: seq<Plane>, l: seq<nat>, touched: seq<nat>, flags: Flags)
      requires volume.mesh.Valid() && forall p <- touched :: p in l
      ensures Answers(flags, l, Kept(planes, volume.mesh),
                      if CachedFace(planes, touched, flags) then [touched[0]]
                      else Report(flags.firstContact, Accepted(l, Kept(planes, volume.mesh))))
    {
      hide Keeps;
      FirstAnswers(flags, l, Kept(planes, volume.mesh));
      if CachedFace(planes, touched, flags) {
        assert touched[0] in touched;
        KnownAnswers(flags, l, Kept(planes, volume.mesh), touched[0]);
      }
    }

    // What a query leaves: the cached face if it is still kept, else what the scan keeps.
    ghost predicate Answered(planes: seq<Plane>, l: seq<nat>, touched: seq<nat>, flags: Flags)
      requires volume.mesh.Valid()
      reads volume
    {
      var found := if CachedFace(planes, touched, flags) then [touched[0]]
                   else Report(flags.firstContact, Accepted(l, Kept(planes, volume.mesh)));
      volume.mTouchedPrimitives == found
      && volume.mFlags == flags.Cleared().(contact := found != [])
    }

    method InitQuery(planes: seq<Plane>, world: World) returns (status: bool)
      requires volume.mesh.Valid() && 0 < |planes| < 32
      requires forall p <- volume.mTouchedPrimitives :: p < |volume.mesh.faces|
      modifies this, volume
      ensures mPlanes == InModel(planes, world) && Ready() && status == volume.mFlags.contact
      ensures status == CachedFace(InModel(planes, world), old(volume.mTouchedPrimitives), old(volume.mFlags))
      ensures volume.mFlags == old(volume.mFlags).Cleared().(contact := status)
      ensures volume.mTouchedPrimitives == if status then [old(volume.mTouchedPrimitives)[0]] else []
    {
      hide Pow2, Keeps, FullMaskOf, PlaneInModel;
      volume.InitQueryEx();
      mPlanes := PlanesInModel(planes, world);
      if volume.mFlags.temporalCoherence && volume.mFlags.firstContact {
        if volume.mTouchedPrimitives != [] {
          var previous := volume.mTouchedPrimitives[0];
          assert previous in volume.mTouchedPrimitives;
          volume.mTouchedPrimitives := [];
          FullMaskBits(|mPlanes|);
          PlanesPrim(previous, FullMaskOf(|mPlanes|));
        }
      } else {
        volume.mTouchedPrimitives := [];
      }
      status := volume.mFlags.contact;
    }
  }

  function Kept(planes: seq<Plane>, m: Mesh): nat -> bool
    requires m.Valid()
  {
    (p: nat) => Keeps(planes, m, p)
  }

  // A plane with the node's box in front keeps none of its triangles.
  lemma Culled(planes: seq<Plane>, mask: nat, m: Mesh, t: Tree)
    requires Covers(t, m)
    requires SomeInFront(planes, mask, t.box)
    ensures Accepted(Prims(t), Kept(planes, m)) == []
  {
    hide CornerBehind, Reach, CenterDistance, HasBit;
    var k :| 0 <= k < |planes| && HasBit(mask, k) && FrontOf(planes[k], t.box);
    forall p <- Prims(t) ensures !Kept(planes, m)(p) {
      BoxInFront(planes[k], t.box, m.Tri(p));
    }
    AcceptedNone(Prims(t), Kept(planes, m));
  }

  // Planes that lose their bit at a node have its whole box behind.
  lemma MaskStaysSettled(planes: seq<Plane>, mask: nat, out: nat, m: Mesh, t: Tree)
    requires Covers(t, m) && Settled(planes, mask, m, t)
    requires Narrowed(planes, mask, out, t.box)
    ensures out < Pow2(|planes|)
    ensures Settled(planes, out, m, t)
  {
    hide CornerBehind, Reach, CenterDistance, HasBit;
    forall p <- Prims(t), k | 0 <= k < |planes| && !HasBit(out, k)
      ensures p < |m.faces| && CornerBehind(planes[k], m.Tri(p))
    {
      if HasBit(mask, k) {
        BoxBehind(planes[k], t.box, m.Tri(p));
      }
    }
  }

  lemma AllKept(planes: seq<Plane>, m: Mesh, t: Tree)
    requires Covers(t, m) && Settled(planes, 0, m, t)
    ensures Accepted(Prims(t), Kept(planes, m)) == Prims(t)
  {
    hide CornerBehind, HasBit;
    NoBitsInZero();
    AcceptedAll(Prims(t), Kept(planes, m));
  }

  lemma SettledChildren(planes: seq<Plane>, mask: nat, m: Mesh, t: Tree)
    requires Covers(t, m) && Settled(planes, mask, m, t)
    ensures t.Node? ==> Settled(planes, mask, m, t.pos) && Settled(planes, mask, m, t.neg)
    ensures t.Leaf? ==> t.prim < |m.faces| && KeptByRest(planes, mask, m.Tri(t.prim))
  {
    hide CornerBehind, HasBit;
    assert t.Leaf? ==> t.prim in Prims(t);
  }

  lemma FullMaskBits(n: nat)
    ensures FullMaskOf(n) < Pow2(n)
    ensures forall k: nat :: HasBit(FullMaskOf(n), k) <==> k < n
  {
    forall k: nat ensures HasBit(FullMaskOf(n), k) <==> k < n { FullMask(n, k); }
  }

  lemma FullMaskSettled(planes: seq<Plane>, m: Mesh, t: Tree)
    requires m.Valid()
    ensures FullMaskOf(|planes|) < Pow2(|planes|) && Settled(planes, FullMaskOf(|planes|), m, t)
  {
    hide HasBit, FullMaskOf;
    FullMaskBits(|planes|);
  }

  lemma CachedFaces(m: Mesh, t: Tree, touched: seq<nat>)
    requires Covers(t, m) && forall p <- touched :: p in Prims(t)
    ensures forall p <- touched :: p < |m.faces|
  {
  }

  lemma ReachOf(pl: Plane, b: Box, np: real, mp: real)
    requires np == b.extents.x * Abs(pl.n.x) + b.extents.y * Abs(pl.n.y) + b.extents.z * Abs(pl.n.z)
    requires mp == b.center.x * pl.n.x + b.center.y * pl.n.y + b.center.z * pl.n.z + pl.d
    ensures np == Reach(pl, b.extents) && mp == CenterDistance(pl, b.center)
  {
  }

  lemma NoBitsInZero()
    ensures forall k: nat :: !HasBit(0, k)
  {
    forall k: nat ensures !HasBit(0, k) { ZeroHasNoBit(k); }
  }

  // Doubling a power below 2^31 does not wrap.
  lemma PowerBounds(p: nat, n: nat)
    requires n < 32
    ensures Pow2(0) == 1 && 0 < Pow2(n)
    ensures p < n ==> (Pow2(p) + Pow2(p)) % WORD32 == Pow2(p + 1)
    ensures p >= n ==> Pow2(n) <= Pow2(p)
    ensures p < n ==> Pow2(p) < Pow2(n)
  {
    if p < n {
      Pow2Monotone(p + 1, n);
      Pow2Monotone(n, 31);
      assert Pow2(31) == 0x8000_0000 by { Pow2Of31(); }
    } else {
      Pow2Monotone(n, p);
    }
  }

  lemma Pow2Of31()
    ensures Pow2(31) == 0x8000_0000
  {
    assert Pow2(8) == 256;
    assert Pow2(16) == 65536;
    assert Pow2(24) == 0x100_0000;
  }

  lemma RecordBit(tmp: nat, p: nat, n: nat)
    requires p < n && tmp < Pow2(n)
    ensures BitOr(tmp, Pow2(p)) < Pow2(n)
    ensures forall k: nat :: HasBit(BitOr(tmp, Pow2(p)), k) <==> HasBit(tmp, k) || k == p
  {
    Pow2Monotone(p + 1, n);
    OrBelow(tmp, Pow2(p), n);
    forall k: nat ensures HasBit(BitOr(tmp, Pow2(p)), k) <==> HasBit(tmp, k) || k == p {
      OrHasBits(tmp, Pow2(p), k);
      PowerHasOneBit(p, k);
    }
  }

  lemma HighBitsClear(m: nat, p: nat)
    requires m < Pow2(p)
    ensures forall k: nat :: k >= p ==> !HasBit(m, k)
  {
    forall k: nat | k >= p ensures !HasBit(m, k) {
      SmallHasNoHighBit(m, p, k);
    }
  }
}
