// Stabbing queries over flattened trees.
module RayCollider {
  import opened RealArithmetic
  import opened Geometry
  import opened RigidTransforms
  import opened WorldTransforms
  import opened BoxTree
  import opened FlatTree
  import opened RayTests
  import opened RayScan
  import opened Collider

  datatype Option<T> = None | Some(value: T)

  class RayQuery {
    const mesh: Mesh
    var mFlags: Flags
    var mOrigin: Point
    var mDir: Point
    var mFDir: Point
    var mData: Point
    var mData2: Point
    // Scratch face of the triangle test, and the destination if there is one.
    var mStabbedFace: Face
    const hasDestination: bool
    var mStabbedFaces: seq<Face>
    var mNbRayBVTests: nat
    var mNbRayPrimTests: nat
    var mNbIntersections: nat
    var mMaxDist: real
    var mClosestHit: bool
    var mCulling: bool

    constructor (mesh: Mesh, hasDestination: bool)
      ensures this.mesh == mesh && this.hasDestination == hasDestination
      ensures mMaxDist == FLT_MAX && mCulling && !mClosestHit
    {
      this.mesh := mesh;
      this.hasDestination := hasDestination;
      mFlags := Flags(false, false, false, false);
      mStabbedFaces := [];
      mNbRayBVTests, mNbRayPrimTests, mNbIntersections := 0, 0, 0;
      mMaxDist := FLT_MAX;
      mClosestHit, mCulling := false, true;
      mOrigin, mDir, mFDir := Point(0.0, 0.0, 0.0), Point(0.0, 0.0, 0.0), Point(0.0, 0.0, 0.0);
      mData, mData2 := Point(0.0, 0.0, 0.0), Point(0.0, 0.0, 0.0);
      mStabbedFace := Face(0, 0.0, 0.0, 0.0);
    }

    // The settings of the query now in force.
    ghost function Asked(): Query
      reads this
    {
      Query(Ray(mOrigin, mDir), mCulling, mMaxDist != FLT_MAX, mMaxDist, mClosestHit, mFlags.firstContact,
            hasDestination)
    }

    ghost function Outcome(): Result
      reads this
    {
      Result(mFlags.contact, mStabbedFaces)
    }

    // The precomputed data belong to the ray.
    ghost predicate Ready()
      reads this
    {
      && mesh.Valid()
      && (if mMaxDist != FLT_MAX
          then mData == mDir.Times(0.5 * mMaxDist) && mData2 == mOrigin.Plus(mData) && mFDir == AbsPoint(mData)
          else mFDir == AbsPoint(mDir))
    }

    // The intersection test. A positive answer leaves the crossing in mStabbedFace; a negative
    // one may leave anything there.
    method RayTriOverlap(vert0: Point, vert1: Point, vert2: Point) returns (overlap: bool)
      modifies `mStabbedFace, `mNbRayPrimTests
      ensures var t := Triangle(vert0, vert1, vert2); var r := Ray(mOrigin, mDir);
              && overlap == RayHits(r, mCulling, t)
              && (overlap ==> Stored(CrossingOf(r, t)))
    {
      hide Point.Dot, Point.Cross, Point.Minus, CrossingOf, RayHits, RayDet;
      mNbRayPrimTests := mNbRayPrimTests + 1;
      var edge1 := vert1.Minus(vert0);
      var edge2 := vert2.Minus(vert0);
      var pvec := mDir.Cross(edge2);
      var det := edge1.Dot(pvec);
      ghost var t := Triangle(vert0, vert1, vert2);
      DetOf(Ray(mOrigin, mDir), t, edge1, edge2);
      if mCulling {
        if det < LOCAL_EPSILON {
          return false;
        }
        overlap := CulledOverlap(t, vert0, edge1, edge2, pvec, det);
      } else {
        if det > -LOCAL_EPSILON && det < LOCAL_EPSILON {
          return false;
        }
        overlap := UnculledOverlap(t, vert0, edge1, edge2, pvec, det);
      }
    }

    ghost predicate Stored(c: Crossing)
      reads this
    {
      mStabbedFace.distance == c.distance && mStabbedFace.u == c.u && mStabbedFace.v == c.v
    }

    method CulledOverlap(ghost t: Triangle, vert0: Point, edge1: Point, edge2: Point, pvec: Point, det: real)
      returns (overlap: bool)
      requires vert0 == t.v0 && edge1 == Edge1(t) && edge2 == Edge2(t) && pvec == mDir.Cross(edge2)
      requires det == edge1.Dot(pvec) && Facing(true, det)
      modifies `mStabbedFace
      ensures RayDet(Ray(mOrigin, mDir), t) == det
      ensures overlap == RayHits(Ray(mOrigin, mDir), true, t)
      ensures overlap ==> Stored(CrossingOf(Ray(mOrigin, mDir), t))
    {
      hide Point.Dot, Point.Cross, Point.Minus, CrossingOf, RayHits, RayDet;
      var tvec := mOrigin.Minus(vert0);
      var u := tvec.Dot(pvec);
      mStabbedFace := mStabbedFace.(u := u);
      var qvec := tvec.Cross(edge1);
      HitCulled(Ray(mOrigin, mDir), t, edge1, edge2, tvec, pvec, qvec, det, 1.0 / det);
      if u < 0.0 || u > det {
        return false;
      }
      var v := mDir.Dot(qvec);
      mStabbedFace := mStabbedFace.(v := v);
      if v < 0.0 || u + v > det {
        return false;
      }
      var invDet := 1.0 / det;
      mStabbedFace := mStabbedFace.(distance := edge2.Dot(qvec) * invDet, u := u * invDet, v := v * invDet);
      return true;
    }

    method UnculledOverlap(ghost t: Triangle, vert0: Point, edge1: Point, edge2: Point, pvec: Point, det: real)
      returns (overlap: bool)
      requires vert0 == t.v0 && edge1 == Edge1(t) && edge2 == Edge2(t) && pvec == mDir.Cross(edge2)
      requires det == edge1.Dot(pvec) && Facing(false, det)
      modifies `mStabbedFace
      ensures RayDet(Ray(mOrigin, mDir), t) == det
      ensures overlap == RayHits(Ray(mOrigin, mDir), false, t)
      ensures overlap ==> Stored(CrossingOf(Ray(mOrigin, mDir), t))
    {
      hide Point.Dot, Point.Cross, Point.Minus, CrossingOf, RayHits, RayDet;
      var invDet := 1.0 / det;
      var tvec := mOrigin.Minus(vert0);
      var u := tvec.Dot(pvec) * invDet;
      mStabbedFace := mStabbedFace.(u := u);
      HitUnculled(Ray(mOrigin, mDir), t, edge1, edge2, tvec, pvec, tvec.Cross(edge1), det, invDet);
      if u < 0.0 || u > 1.0 {
        return false;
      }
      var qvec := tvec.Cross(edge1);
      var v := mDir.Dot(qvec) * invDet;
      mStabbedFace := mStabbedFace.(v := v);
      if v < 0.0 || u + v > 1.0 {
        return false;
      }
      mStabbedFace := mStabbedFace.(distance := edge2.Dot(qvec) * invDet);
      return true;
    }

    method SegmentAABBOverlap(center: Point, extents: Point) returns (overlap: bool)
      requires mFDir == AbsPoint(mData)
      modifies `mNbRayBVTests
      ensures overlap == SegmentBoxAxes(mData, mData2, center, extents)
    {
      hide Abs, CrossAxis;
      mNbRayBVTests := mNbRayBVTests + 1;
      var dx := mData2.x - center.x;
      if Abs(dx) > extents.x + mFDir.x {
        return false;
      }
      var dy := mData2.y - center.y;
      if Abs(dy) > extents.y + mFDir.y {
        return false;
      }
      var dz := mData2.z - center.z;
      if Abs(dz) > extents.z + mFDir.z {
        return false;
      }
      var f := mData.y * dz - mData.z * dy;
      CrossAxisBound(mData.y, mData.z, dy, dz, extents.y, extents.z, mFDir.y, mFDir.z, f);
      if Abs(f) > extents.y * mFDir.z + extents.z * mFDir.y {
        return false;
      }
      f := mData.z * dx - mData.x * dz;
      CrossAxisBound(mData.z, mData.x, dz, dx, extents.z, extents.x, mFDir.z, mFDir.x, f);
      if Abs(f) > extents.x * mFDir.z + extents.z * mFDir.x {
        return false;
      }
      f := mData.x * dy - mData.y * dx;
      CrossAxisBound(mData.x, mData.y, dx, dy, extents.x, extents.y, mFDir.x, mFDir.y, f);
      if Abs(f) > extents.x * mFDir.y + extents.y * mFDir.x {
        return false;
      }
      return true;
    }

    method RayAABBOverlap(center: Point, extents: Point) returns (overlap: bool)
      requires mFDir == AbsPoint(mDir)
      modifies `mNbRayBVTests
      ensures overlap == RayBoxAxes(mDir, mOrigin, center, extents)
    {
      hide Abs, CrossAxis;
      mNbRayBVTests := mNbRayBVTests + 1;
      var dx := mOrigin.x - center.x;
      if Abs(dx) > extents.x && dx * mDir.x >= 0.0 {
        return false;
      }
      var dy := mOrigin.y - center.y;
      if Abs(dy) > extents.y && dy * mDir.y >= 0.0 {
        return false;
      }
      var dz := mOrigin.z - center.z;
      if Abs(dz) > extents.z && dz * mDir.z >= 0.0 {
        return false;
      }
      var f := mDir.y * dz - mDir.z * dy;
      CrossAxisBound(mDir.y, mDir.z, dy, dz, extents.y, extents.z, mFDir.y, mFDir.z, f);
      if Abs(f) > extents.y * mFDir.z + extents.z * mFDir.y {
        return false;
      }
      f := mDir.z * dx - mDir.x * dz;
      CrossAxisBound(mDir.z, mDir.x, dz, dx, extents.z, extents.x, mFDir.z, mFDir.x, f);
      if Abs(f) > extents.x * mFDir.z + extents.z * mFDir.x {
        return false;
      }
      f := mDir.x * dy - mDir.y * dx;
      CrossAxisBound(mDir.x, mDir.y, dx, dy, extents.x, extents.y, mFDir.x, mFDir.y, f);
      if Abs(f) > extents.x * mFDir.y + extents.y * mFDir.x {
        return false;
      }
      return true;
    }

    // Reports the stored crossing of a triangle that was taken.
    method HandleContact(prim: nat)
      requires mesh.Valid() && Takes(Asked(), mesh, prim)
      requires Stored(CrossingOf(Ray(mOrigin, mDir), mesh.Tri(prim)))
      modifies `mFlags, `mStabbedFace, `mStabbedFaces
      ensures Asked() == old(Asked()) && mFlags == old(mFlags).(contact := mFlags.contact)
      ensures Outcome() == Contact(Asked(), old(Outcome()), FaceAt(Asked(), mesh, prim))
    {
      mFlags := mFlags.Touched();
      if hasDestination {
        if !mClosestHit || |mStabbedFaces| == 0 {
          mStabbedFace := mStabbedFace.(id := prim);
          mStabbedFaces := mStabbedFaces + [mStabbedFace];
        } else {
          if mStabbedFace.distance < mStabbedFaces[0].distance {
            mStabbedFace := mStabbedFace.(id := prim);
            mStabbedFaces := mStabbedFaces[0 := mStabbedFace];
          }
        }
      }
    }

    method StabPrim(prim: nat)
      requires mesh.Valid() && prim < |mesh.faces| && mMaxDist != FLT_MAX
      modifies `mFlags, `mStabbedFace, `mStabbedFaces, `mNbIntersections, `mNbRayPrimTests
      ensures Asked() == old(Asked()) && mFlags == old(mFlags).(contact := mFlags.contact)
      ensures Outcome() == Step(Asked(), mesh, old(Outcome()), prim)
      ensures mNbIntersections == old(mNbIntersections) + if CrossTest(Asked(), mesh)(prim) then 1 else 0
    {
      hide RayHits, CrossingOf;
      var tri := mesh.Tri(prim);
      var overlap := RayTriOverlap(tri.v0, tri.v1, tri.v2);
      if overlap {
        if !(mStabbedFace.distance < 0.0) {
          mNbIntersections := mNbIntersections + 1;
          if mStabbedFace.distance < mMaxDist {
            HandleContact(prim);
          }
        }
      }
    }

    method UnboundedStabPrim(prim: nat)
      requires mesh.Valid() && prim < |mesh.faces| && mMaxDist == FLT_MAX
      modifies `mFlags, `mStabbedFace, `mStabbedFaces, `mNbIntersections, `mNbRayPrimTests
      ensures Asked() == old(Asked()) && mFlags == old(mFlags).(contact := mFlags.contact)
      ensures Outcome() == Step(Asked(), mesh, old(Outcome()), prim)
      ensures mNbIntersections == old(mNbIntersections) + if Takes(Asked(), mesh, prim) then 1 else 0
    {
      hide RayHits, CrossingOf;
      var tri := mesh.Tri(prim);
      var overlap := RayTriOverlap(tri.v0, tri.v1, tri.v2);
      if overlap {
        if !(mStabbedFace.distance < 0.0) {
          mNbIntersections := mNbIntersections + 1;
          HandleContact(prim);
        }
      }
    }

    method Stab(flat: Flat, node: nat, ghost t: Tree)
      requires Ready() && mMaxDist != FLT_MAX && !mFlags.ContactFound()
      requires flat.Holds(node, t) && Covers(t, mesh)
      modifies `mFlags, `mStabbedFace, `mStabbedFaces, `mNbIntersections, `mNbRayPrimTests, `mNbRayBVTests
      ensures Asked() == old(Asked()) && mFlags == old(mFlags).(contact := mFlags.contact)
      ensures Outcome() == Scan(Asked(), mesh, old(Outcome()), Prims(t))
      ensures CountsBetween(Asked(), mesh, Prims(t), mNbIntersections - old(mNbIntersections))
      decreases t
    {
      hide Scan, Step, Takes, Counted, CountsBetween, CrossTest, Covers, Prims, SegmentBoxAxes, RayBoxAxes, AbsPoint;
      hide Flat.Holds, Flat.At, Flat.Points, NoLeafFlat.Holds, NoLeafFlat.HoldsChild, NoLeafFlat.At, NoLeafFlat.Points;
      hide IsLeafWord, PrimitiveOf;
      HoldsStep(flat, node, t);
      ghost var q, s := Asked(), Outcome();
      NodeFacts(t, mesh);
      var n := flat.At(node);
      var overlap := SegmentAABBOverlap(n.box.center, n.box.extents);
      if !overlap {
        SegmentMisses(q, mesh, s, t, mData, mData2);
        CountsNone(q, mesh, Prims(t));
        return;
      }
      if IsLeafWord(n.data) {
        ScanOne(q, mesh, s, t.prim);
        CountsOne(q, mesh, t.prim);
        StabPrim(PrimitiveOf(n.data));
      } else {
        ScanBoth(q, mesh, s, Prims(t.pos), Prims(t.neg));
        ghost var before: int := mNbIntersections;
        Stab(flat, n.data, t.pos);
        ghost var between: int := mNbIntersections;
        if !mFlags.ContactFound() {
          Stab(flat, n.data + NODE_SIZE, t.neg);
        }
        CountsBoth(q, mesh, s, Prims(t.pos), Prims(t.neg), between - before, mNbIntersections - between);
      }
    }

    method StabNoLeaf(flat: NoLeafFlat, node: nat, ghost t: Tree)
      requires Ready() && mMaxDist != FLT_MAX && !mFlags.ContactFound()
      requires flat.Holds(node, t) && Covers(t, mesh)
      modifies `mFlags, `mStabbedFace, `mStabbedFaces, `mNbIntersections, `mNbRayPrimTests, `mNbRayBVTests
      ensures Asked() == old(Asked()) && mFlags == old(mFlags).(contact := mFlags.contact)
      ensures Outcome() == Scan(Asked(), mesh, old(Outcome()), Prims(t))
      ensures CountsBetween(Asked(), mesh, Prims(t), mNbIntersections - old(mNbIntersections))
      decreases t, 0
    {
      hide Scan, Step, Takes, Counted, CountsBetween, CrossTest, Covers, Prims, SegmentBoxAxes, RayBoxAxes, AbsPoint;
      hide Flat.Holds, Flat.At, Flat.Points, NoLeafFlat.Holds, NoLeafFlat.HoldsChild, NoLeafFlat.At, NoLeafFlat.Points;
      hide IsLeafWord, PrimitiveOf;
      NoLeafHoldsStep(flat, node, t);
      ghost var q, s := Asked(), Outcome();
      NodeFacts(t, mesh);
      var n := flat.At(node);
      var overlap := SegmentAABBOverlap(n.box.center, n.box.extents);
      if !overlap {
        SegmentMisses(q, mesh, s, t, mData, mData2);
        CountsNone(q, mesh, Prims(t));
        return;
      }
      ScanBoth(q, mesh, s, Prims(t.pos), Prims(t.neg));
      ghost var before: int := mNbIntersections;
      StabNoLeafChild(flat, n.data, t.pos);
      ghost var between: int := mNbIntersections;
      if !mFlags.ContactFound() {
        StabNoLeafChild(flat, n.data2, t.neg);
      }
      CountsBoth(q, mesh, s, Prims(t.pos), Prims(t.neg), between - before, mNbIntersections - between);
    }

    method StabNoLeafChild(flat: NoLeafFlat, word: nat, ghost t: Tree)
      requires Ready() && mMaxDist != FLT_MAX && !mFlags.ContactFound()
      requires flat.HoldsChild(word, t) && Covers(t, mesh)
      modifies `mFlags, `mStabbedFace, `mStabbedFaces, `mNbIntersections, `mNbRayPrimTests, `mNbRayBVTests
      ensures Asked() == old(Asked()) && mFlags == old(mFlags).(contact := mFlags.contact)
      ensures Outcome() == Scan(Asked(), mesh, old(Outcome()), Prims(t))
      ensures CountsBetween(Asked(), mesh, Prims(t), mNbIntersections - old(mNbIntersections))
      decreases t, 1
    {
      hide Scan, Step, Takes, Counted, CountsBetween, Crosses, Covers, Prims, AbsPoint;
      NodeFacts(t, mesh);
      if IsLeafWord(word) {
        ScanOne(Asked(), mesh, Outcome(), t.prim);
        CountsOne(Asked(), mesh, t.prim);
        StabPrim(PrimitiveOf(word));
      } else {
        StabNoLeaf(flat, word, t);
      }
    }

    method UnboundedStab(flat: Flat, node: nat, ghost t: Tree)
      requires Ready() && mMaxDist == FLT_MAX && !mFlags.ContactFound()
      requires flat.Holds(node, t) && Covers(t, mesh)
      modifies `mFlags, `mStabbedFace, `mStabbedFaces, `mNbIntersections, `mNbRayPrimTests, `mNbRayBVTests
      ensures Asked() == old(Asked()) && mFlags == old(mFlags).(contact := mFlags.contact)
      ensures Outcome() == Scan(Asked(), mesh, old(Outcome()), Prims(t))
      ensures mNbIntersections == old(mNbIntersections) + Counted(Asked(), mesh, Prims(t))
      decreases t
    {
      hide Scan, Step, Takes, Counted, Covers, Prims, SegmentBoxAxes, RayBoxAxes, AbsPoint;
      hide Flat.Holds, Flat.At, Flat.Points, NoLeafFlat.Holds, NoLeafFlat.HoldsChild, NoLeafFlat.At, NoLeafFlat.Points;
      hide IsLeafWord, PrimitiveOf;
      HoldsStep(flat, node, t);
      ghost var q, s := Asked(), Outcome();
      NodeFacts(t, mesh);
      var n := flat.At(node);
      var overlap := RayAABBOverlap(n.box.center, n.box.extents);
      if !overlap {
        RayMisses(q, mesh, s, t);
        return;
      }
      if IsLeafWord(n.data) {
        ScanOne(q, mesh, s, t.prim);
        UnboundedStabPrim(PrimitiveOf(n.data));
      } else {
        ScanBoth(q, mesh, s, Prims(t.pos), Prims(t.neg));
        UnboundedStab(flat, n.data, t.pos);
        if mFlags.ContactFound() {
          return;
        }
        UnboundedStab(flat, n.data + NODE_SIZE, t.neg);
      }
    }

    method UnboundedStabNoLeaf(flat: NoLeafFlat, node: nat, ghost t: Tree)
      requires Ready() && mMaxDist == FLT_MAX && !mFlags.ContactFound()
      requires flat.Holds(node, t) && Covers(t, mesh)
      modifies `mFlags, `mStabbedFace, `mStabbedFaces, `mNbIntersections, `mNbRayPrimTests, `mNbRayBVTests
      ensures Asked() == old(Asked()) && mFlags == old(mFlags).(contact := mFlags.contact)
      ensures Outcome() == Scan(Asked(), mesh, old(Outcome()), Prims(t))
      ensures mNbIntersections == old(mNbIntersections) + Counted(Asked(), mesh, Prims(t))
      decreases t, 0
    {
      hide Scan, Step, Takes, Counted, Covers, Prims, SegmentBoxAxes, RayBoxAxes, AbsPoint;
      hide Flat.Holds, Flat.At, Flat.Points, NoLeafFlat.Holds, NoLeafFlat.HoldsChild, NoLeafFlat.At, NoLeafFlat.Points;
      hide IsLeafWord, PrimitiveOf;
      NoLeafHoldsStep(flat, node, t);
      ghost var q, s := Asked(), Outcome();
      NodeFacts(t, mesh);
      var n := flat.At(node);
      var overlap := RayAABBOverlap(n.box.center, n.box.extents);
      if !overlap {
        RayMisses(q, mesh, s, t);
        return;
      }
      ScanBoth(q, mesh, s, Prims(t.pos), Prims(t.neg));
      UnboundedStabNoLeafChild(flat, n.data, t.pos);
      if mFlags.ContactFound() {
        return;
      }
      UnboundedStabNoLeafChild(flat, n.data2, t.neg);
    }

    method UnboundedStabNoLeafChild(flat: NoLeafFlat, word: nat, ghost t: Tree)
      requires Ready() && mMaxDist == FLT_MAX && !mFlags.ContactFound()
      requires flat.HoldsChild(word, t) && Covers(t, mesh)
      modifies `mFlags, `mStabbedFace, `mStabbedFaces, `mNbIntersections, `mNbRayPrimTests, `mNbRayBVTests
      ensures Asked() == old(Asked()) && mFlags == old(mFlags).(contact := mFlags.contact)
      ensures Outcome() == Scan(Asked(), mesh, old(Outcome()), Prims(t))
      ensures mNbIntersections == old(mNbIntersections) + Counted(Asked(), mesh, Prims(t))
      decreases t, 1
    {
      hide Scan, Step, Takes, Counted, Covers, Prims, AbsPoint;
      NodeFacts(t, mesh);
      if IsLeafWord(word) {
        ScanOne(Asked(), mesh, Outcome(), t.prim);
        UnboundedStabPrim(PrimitiveOf(word));
      } else {
        UnboundedStabNoLeaf(flat, word, t);
      }
    }

    // Tests the triangle of an earlier query first.
    method TryCached(faceId: nat)
      requires mesh.Valid() && faceId < |mesh.faces| && Outcome() == Result(false, [])
      modifies `mFlags, `mStabbedFace, `mStabbedFaces, `mNbRayPrimTests
      ensures Asked() == old(Asked()) && mFlags == old(mFlags).(contact := mFlags.contact)
      ensures Outcome() ==
              if CacheHits(Asked(), mesh, faceId)
              then Result(true, if hasDestination then [FaceAt(Asked(), mesh, faceId)] else [])
              else Result(false, [])
    {
      hide RayHits, CrossingOf, AbsPoint;
      var tri := mesh.Tri(faceId);
      var overlap := RayTriOverlap(tri.v0, tri.v1, tri.v2);
      if overlap {
        if mStabbedFace.distance > 0.0 && mStabbedFace.distance < mMaxDist {
          mFlags := mFlags.Touched();
          mStabbedFace := mStabbedFace.(id := faceId);
          if hasDestination {
            mStabbedFaces := mStabbedFaces + [mStabbedFace];
          }
        }
      }
    }

    method InitQuery(worldRay: Ray, world: World, faceId: Option<nat>) returns (status: bool)
      requires mesh.Valid() && (faceId.Some? ==> faceId.value < |mesh.faces|)
      modifies this
      ensures unchanged(`mMaxDist, `mClosestHit, `mCulling) && Asked().ray == InModel(worldRay, world) && Ready()
      ensures mFlags == old(mFlags).Cleared().(contact := mFlags.contact)
      ensures status == mFlags.contact && mNbIntersections == 0
      ensures Outcome() ==
              if UsesCache(mFlags, faceId) && CacheHits(Asked(), mesh, faceId.value)
              then Result(true, if hasDestination then [FaceAt(Asked(), mesh, faceId.value)] else [])
              else Result(false, [])
    {
      hide CacheHits, FaceAt, AbsPoint, InModel, Mesh.Tri, Takes;
      mFlags := mFlags.Cleared();
      mNbRayBVTests := 0;
      mNbRayPrimTests := 0;
      mNbIntersections := 0;
      mStabbedFaces := [];
      mOrigin, mDir := RayInModel(worldRay, world);
      if mMaxDist != FLT_MAX {
        mData := mDir.Times(0.5 * mMaxDist);
        mData2 := mOrigin.Plus(mData);
        mFDir := AbsPoint(mData);
      } else {
        mFDir := AbsPoint(mDir);
      }
      if mFlags.temporalCoherence && mFlags.firstContact && faceId.Some? {
        TryCached(faceId.value);
      }
      status := mFlags.contact;
    }

    // A whole query. The cache is the face of an earlier query, if any.
    method Collide(ray: Ray, world: World, flat: Flat, cache: Option<nat>, ghost t: Tree) returns (updated: Option<nat>)
      requires mesh.Valid() && Covers(t, mesh) && flat.Holds(flat.base, t)
      requires cache.Some? ==> cache.value in Prims(t)
      modifies this
      ensures unchanged(`mMaxDist, `mClosestHit, `mCulling) && Asked().ray == InModel(ray, world)
      ensures mFlags == old(mFlags).Cleared().(contact := mFlags.contact)
      ensures Outcome() ==
              if UsesCache(mFlags, cache) && CacheHits(Asked(), mesh, cache.value)
              then Result(true, if hasDestination then [FaceAt(Asked(), mesh, cache.value)] else [])
              else Scan(Asked(), mesh, Result(false, []), Prims(t))
      ensures mFlags.contact <==> Taken(Asked(), mesh, Prims(t)) != []
      ensures mMaxDist == FLT_MAX && !(UsesCache(mFlags, cache) && CacheHits(Asked(), mesh, cache.value)) ==>
                mNbIntersections == Counted(Asked(), mesh, Prims(t))
      ensures mMaxDist != FLT_MAX && !(UsesCache(mFlags, cache) && CacheHits(Asked(), mesh, cache.value)) ==>
                CountsBetween(Asked(), mesh, Prims(t), mNbIntersections)
      ensures hasDestination && mFlags.contact ==> mStabbedFaces != []
      ensures AllMeet(Asked(), mesh, mStabbedFaces)
      ensures updated == if mFlags.contact && hasDestination then Some(mStabbedFaces[0].id) else cache
    {
      hide Scan, Takes, Covers, Prims, Taken, Counted, CountsBetween, Meets, FaceAt;
      CachedIsCovered(mesh, t, cache);
      var status := InitQuery(ray, world, cache);
      ghost var q := Asked();
      if status {
        CachedIsTaken(q, mesh, Prims(t), cache.value);
        FaceIsCrossing(q, mesh, cache.value);
        return cache;
      }
      ScanContactOnly(q, mesh, Result(false, []), Prims(t));
      ScanMeets(q, mesh, Result(false, []), Prims(t));
      if mMaxDist != FLT_MAX {
        Stab(flat, flat.base, t);
      } else {
        UnboundedStab(flat, flat.base, t);
      }
      if mFlags.contact && hasDestination {
        updated := Some(mStabbedFaces[0].id);
      } else {
        updated := cache;
      }
    }

    // A whole query. The cache is the face of an earlier query, if any.
    method CollideNoLeaf(ray: Ray, world: World, flat: NoLeafFlat, cache: Option<nat>, ghost t: Tree)
      returns (updated: Option<nat>)
      requires mesh.Valid() && Covers(t, mesh) && flat.Holds(flat.base, t)
      requires cache.Some? ==> cache.value in Prims(t)
      modifies this
      ensures unchanged(`mMaxDist, `mClosestHit, `mCulling) && Asked().ray == InModel(ray, world)
      ensures mFlags == old(mFlags).Cleared().(contact := mFlags.contact)
      ensures Outcome() ==
              if UsesCache(mFlags, cache) && CacheHits(Asked(), mesh, cache.value)
              then Result(true, if hasDestination then [FaceAt(Asked(), mesh, cache.value)] else [])
              else Scan(Asked(), mesh, Result(false, []), Prims(t))
      ensures mFlags.contact <==> Taken(Asked(), mesh, Prims(t)) != []
      ensures mMaxDist == FLT_MAX && !(UsesCache(mFlags, cache) && CacheHits(Asked(), mesh, cache.value)) ==>
                mNbIntersections == Counted(Asked(), mesh, Prims(t))
      ensures mMaxDist != FLT_MAX && !(UsesCache(mFlags, cache) && CacheHits(Asked(), mesh, cache.value)) ==>
                CountsBetween(Asked(), mesh, Prims(t), mNbIntersections)
      ensures hasDestination && mFlags.contact ==> mStabbedFaces != []
      ensures AllMeet(Asked(), mesh, mStabbedFaces)
      ensures updated == if mFlags.contact && hasDestination then Some(mStabbedFaces[0].id) else cache
    {
      hide Scan, Takes, Covers, Prims, Taken, Counted, CountsBetween, Meets, FaceAt;
      CachedIsCovered(mesh, t, cache);
      var status := InitQuery(ray, world, cache);
      ghost var q := Asked();
      if status {
        CachedIsTaken(q, mesh, Prims(t), cache.value);
        FaceIsCrossing(q, mesh, cache.value);
        return cache;
      }
      ScanContactOnly(q, mesh, Result(false, []), Prims(t));
      ScanMeets(q, mesh, Result(false, []), Prims(t));
      if mMaxDist != FLT_MAX {
        StabNoLeaf(flat, flat.base, t);
      } else {
        UnboundedStabNoLeaf(flat, flat.base, t);
      }
      if mFlags.contact && hasDestination {
        updated := Some(mStabbedFaces[0].id);
      } else {
        updated := cache;
      }
    }
  }

  // The direction turned by the transposed matrix, the origin moved by its inverse.
  method RayInModel(worldRay: Ray, world: World) returns (origin: Point, dir: Point)
    ensures Ray(origin, dir) == InModel(worldRay, world)
  {
    if world.Set? {
      var rows, d := world.matrix.rot, worldRay.dir;
      dir := Point(rows.r0.Dot(d), rows.r1.Dot(d), rows.r2.Dot(d));
      TransposeApplies(rows, d);
      InverseTurns(world.matrix);
      DotCommutes(rows.r0, d);
      DotCommutes(rows.r1, d);
      DotCommutes(rows.r2, d);
      hide Point.Dot, Rigid.Apply, Matrix3.Apply, Matrix3.Transpose, Inverse;
      var invWorld := InvertPRMatrix(world.matrix);
      origin := invWorld.Apply(worldRay.origin);
    } else {
      origin, dir := worldRay.origin, worldRay.dir;
    }
  }

  predicate UsesCache(flags: Flags, faceId: Option<nat>) {
    flags.temporalCoherence && flags.firstContact && faceId.Some?
  }

  // The cached triangle is hit, strictly ahead of the origin and below the bound.
  predicate CacheHits(q: Query, m: Mesh, p: nat)
    requires m.Valid()
  {
    Takes(q, m, p) && 0.0 < CrossingOf(q.ray, m.Tri(p)).distance < q.maxDist
  }

  lemma CachedIsCovered(m: Mesh, t: Tree, cache: Option<nat>)
    requires Covers(t, m) && (cache.Some? ==> cache.value in Prims(t))
    ensures cache.Some? ==> cache.value < |m.faces|
  {
  }

  lemma CachedIsTaken(q: Query, m: Mesh, l: seq<nat>, p: nat)
    requires m.Valid() && p in l && Takes(q, m, p)
    ensures Taken(q, m, l) != []
  {
    assert p in Taken(q, m, l);
  }

  lemma {:induction false} ScanContactOnly(q: Query, m: Mesh, s: Result, l: seq<nat>)
    requires m.Valid() && !(q.first && s.contact)
    requires q.keep && s.contact ==> s.faces != []
    ensures Scan(q, m, s, l).contact <==> s.contact || Taken(q, m, l) != []
    ensures q.keep && Scan(q, m, s, l).contact ==> Scan(q, m, s, l).faces != []
    decreases |l|
  {
    ScanContact(q, m, s, l);
    if l != [] {
      var s' := Step(q, m, s, l[0]);
      if !(q.first && s'.contact) {
        ScanContactOnly(q, m, s', l[1..]);
      }
    }
  }

  lemma CrossAxisBound(hy: real, hz: real, dy: real, dz: real, ey: real, ez: real, fy: real, fz: real, f: real)
    requires fy == Abs(hy) && fz == Abs(hz) && f == hy * dz - hz * dy
    ensures CrossAxis(hy, hz, dy, dz, ey, ez) <==> Abs(f) <= ez * fy + ey * fz
    ensures CrossAxis(hy, hz, dy, dz, ey, ez) <==> Abs(f) <= ey * fz + ez * fy
  {
  }

  // How many intersections a query over the list counts.
  ghost function Counted(q: Query, m: Mesh, l: seq<nat>): nat
    requires m.Valid()
  {
    |Report(q.first, Taken(q, m, l))|
  }

  // Hits ahead of the origin, at any distance.
  function CrossTest(q: Query, m: Mesh): nat -> bool
    requires m.Valid()
  {
    (p: nat) => p < |m.faces| && Crosses(q, m, p)
  }

  // A bounded query also counts hits beyond its bound, as far as it comes upon them: at least those
  // it takes, at most all there are.
  ghost predicate CountsBetween(q: Query, m: Mesh, l: seq<nat>, n: int)
    requires m.Valid()
  {
    Counted(q, m, l) <= n <= |Accepted(l, CrossTest(q, m))|
  }

  lemma CountsOne(q: Query, m: Mesh, p: nat)
    requires m.Valid()
    ensures CountsBetween(q, m, [p], if CrossTest(q, m)(p) then 1 else 0)
  {
    hide Crosses;
    assert [p][1..] == [];
    assert Accepted([], CrossTest(q, m)) == [] && Accepted([], (x: nat) => Takes(q, m, x)) == [];
  }

  lemma CountsNone(q: Query, m: Mesh, l: seq<nat>)
    requires m.Valid() && Counted(q, m, l) == 0
    ensures CountsBetween(q, m, l, 0)
  {
    hide Counted;
  }

  lemma CountsBoth(q: Query, m: Mesh, s: Result, l: seq<nat>, k: seq<nat>, n: int, n': int)
    requires m.Valid() && !(q.first && s.contact) && CountsBetween(q, m, l, n)
    requires if q.first && Scan(q, m, s, l).contact then n' == 0 else CountsBetween(q, m, k, n')
    ensures CountsBetween(q, m, l + k, n + n')
  {
    ScanBoth(q, m, s, l, k);
    hide Counted, Scan, Crosses;
    AcceptedConcat(l, k, CrossTest(q, m));
  }

  lemma ScanOne(q: Query, m: Mesh, s: Result, p: nat)
    requires m.Valid() && !(q.first && s.contact)
    ensures Scan(q, m, s, [p]) == Step(q, m, s, p)
    ensures Counted(q, m, [p]) == if Takes(q, m, p) then 1 else 0
  {
    assert [p][1..] == [];
    assert Accepted([], (x: nat) => Takes(q, m, x)) == [];
  }

  lemma ScanBoth(q: Query, m: Mesh, s: Result, l: seq<nat>, k: seq<nat>)
    requires m.Valid() && !(q.first && s.contact)
    ensures Scan(q, m, s, l + k) ==
            var s' := Scan(q, m, s, l); if q.first && s'.contact then s' else Scan(q, m, s', k)
    ensures Counted(q, m, l + k) ==
            Counted(q, m, l) + if q.first && Scan(q, m, s, l).contact then 0 else Counted(q, m, k)
  {
    ScanConcat(q, m, s, l, k);
    AcceptedConcat(l, k, (p: nat) => Takes(q, m, p));
    ScanContact(q, m, s, l);
    ReportConcat(q.first, Taken(q, m, l), Taken(q, m, k));
  }

  lemma ScanNone(q: Query, m: Mesh, s: Result, l: seq<nat>)
    requires m.Valid() && !(q.first && s.contact) && forall p <- l :: !Takes(q, m, p)
    ensures Scan(q, m, s, l) == s && Counted(q, m, l) == 0
  {
    ScanSkips(q, m, s, l);
    AcceptedNone(l, (p: nat) => Takes(q, m, p));
  }

  // A triangle that is taken has its crossing inside every box that encloses it.
  lemma TakenInBox(q: Query, m: Mesh, p: nat, b: Box)
    requires m.Valid() && Takes(q, m, p) && Encloses(b, m.Tri(p))
    ensures InBox(Along(q.ray, CrossingOf(q.ray, m.Tri(p)).distance), b)
  {
    hide RayDet, CrossingOf;
    var c := CrossingOf(q.ray, m.Tri(p));
    CrossingSolves(q.ray, m.Tri(p));
    EnclosedPoint(b, m.Tri(p), c.u, c.v);
  }

  lemma RayMisses(q: Query, m: Mesh, s: Result, t: Tree)
    requires !(q.first && s.contact)
    requires Covers(t, m) && !RayBoxAxes(q.ray.dir, q.ray.origin, t.box.center, t.box.extents)
    ensures Scan(q, m, s, Prims(t)) == s && Counted(q, m, Prims(t)) == 0
  {
    forall p <- Prims(t) ensures !Takes(q, m, p) {
      if Takes(q, m, p) {
        TakenInBox(q, m, p, t.box);
        RayTestNeverRejects(q.ray, t.box, CrossingOf(q.ray, m.Tri(p)).distance);
      }
    }
    ScanNone(q, m, s, Prims(t));
  }

  lemma SegmentMisses(q: Query, m: Mesh, s: Result, t: Tree, h: Point, c: Point)
    requires !(q.first && s.contact)
    requires Covers(t, m) && !SegmentBoxAxes(h, c, t.box.center, t.box.extents)
    requires q.bounded && h == q.ray.dir.Times(0.5 * q.maxDist) && c == q.ray.origin.Plus(h)
    ensures Scan(q, m, s, Prims(t)) == s && Counted(q, m, Prims(t)) == 0
  {
    forall p <- Prims(t) ensures !Takes(q, m, p) {
      if Takes(q, m, p) {
        TakenInBox(q, m, p, t.box);
        var d := CrossingOf(q.ray, m.Tri(p)).distance;
        var k := 2.0 * (d / q.maxDist) - 1.0;
        OnSegment(q.ray, q.maxDist, d, k, h, c);
        SegmentTestNeverRejects(h, c, t.box, k);
      }
    }
    ScanNone(q, m, s, Prims(t));
  }

  lemma OnSegment(r: Ray, maxDist: real, d: real, s: real, h: Point, c: Point)
    requires 0.0 <= d < maxDist && s == 2.0 * (d / maxDist) - 1.0
    requires h == r.dir.Times(0.5 * maxDist) && c == r.origin.Plus(h)
    ensures -1.0 <= s <= 1.0 && c.Plus(h.Times(s)) == Along(r, d)
  {
    var k := d / maxDist;
    assert k * maxDist == d;
    if k < 0.0 { ProductPositive(-k, maxDist); }
    if k > 1.0 { ProductPositive(k - 1.0, maxDist); }
    OnSegmentAxis(r.origin.x, r.dir.x, maxDist, d, k, s);
    OnSegmentAxis(r.origin.y, r.dir.y, maxDist, d, k, s);
    OnSegmentAxis(r.origin.z, r.dir.z, maxDist, d, k, s);
  }

  lemma OnSegmentAxis(o: real, x: real, maxDist: real, d: real, k: real, s: real)
    requires k * maxDist == d && s == 2.0 * k - 1.0
    ensures o + x * (0.5 * maxDist) + (x * (0.5 * maxDist)) * s == o + x * d
  {
    assert (x * (0.5 * maxDist)) * s == x * (k * maxDist) - x * (0.5 * maxDist);
  }

  lemma DetOf(r: Ray, t: Triangle, e: Point, f: Point)
    requires e == t.v1.Minus(t.v0) && f == t.v2.Minus(t.v0)
    ensures RayDet(r, t) == e.Dot(r.dir.Cross(f))
    ensures !Facing(true, RayDet(r, t)) ==> !RayHits(r, true, t)
    ensures !Facing(false, RayDet(r, t)) ==> !RayHits(r, false, t)
  {
    hide Point.Dot, Point.Cross, Point.Minus;
  }

  // The quotients of the test and the conditions on them.
  lemma HitUnculled(r: Ray, t: Triangle, e: Point, f: Point, a: Point, p: Point, q: Point, det: real, inv: real)
    requires e == t.v1.Minus(t.v0) && f == t.v2.Minus(t.v0) && a == r.origin.Minus(t.v0)
    requires p == r.dir.Cross(f) && q == a.Cross(e) && det == e.Dot(p)
    requires Facing(false, det) && inv == 1.0 / det
    ensures RayDet(r, t) == det && CrossingOf(r, t) == Crossing(f.Dot(q) * inv, a.Dot(p) * inv, r.dir.Dot(q) * inv)
    ensures RayHits(r, false, t) <==>
            a.Dot(p) * inv >= 0.0 && r.dir.Dot(q) * inv >= 0.0 && a.Dot(p) * inv + r.dir.Dot(q) * inv <= 1.0
  {
    hide Point.Dot, Point.Cross, Point.Minus;
  }

  // When culling, the numerators are compared before they are scaled.
  lemma HitCulled(r: Ray, t: Triangle, e: Point, f: Point, a: Point, p: Point, q: Point, det: real, inv: real)
    requires e == t.v1.Minus(t.v0) && f == t.v2.Minus(t.v0) && a == r.origin.Minus(t.v0)
    requires p == r.dir.Cross(f) && q == a.Cross(e) && det == e.Dot(p)
    requires Facing(true, det) && inv == 1.0 / det
    ensures RayDet(r, t) == det && CrossingOf(r, t) == Crossing(f.Dot(q) * inv, a.Dot(p) * inv, r.dir.Dot(q) * inv)
    ensures RayHits(r, true, t) <==> a.Dot(p) >= 0.0 && r.dir.Dot(q) >= 0.0 && a.Dot(p) + r.dir.Dot(q) <= det
  {
    hide Point.Dot, Point.Cross, Point.Minus;
    UnscaledComparisons(a.Dot(p), r.dir.Dot(q), det, inv);
  }

  function AbsPoint(p: Point): Point { Point(Abs(p.x), Abs(p.y), Abs(p.z)) }
}
