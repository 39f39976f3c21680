// Queries with a sphere.
module SphereCollider {
  import opened RealArithmetic
  import opened Geometry
  import opened RigidTransforms
  import opened WorldTransforms
  import opened PointTriangleDistance
  import opened SphereTriangle
  import opened BoxTree
  import opened FlatTree
  import opened Collider
  import opened VolumeCollider
  import opened SphereScan
  import opened SphereCoherence

  lemma CachedPrims(m: Mesh, t: Tree, touched: seq<nat>)
    requires Covers(t, m) && forall p <- touched :: p in Prims(t)
    ensures m.Valid() && forall p <- touched :: p < |m.faces|
  {
  }

  // ---- the sphere in the space of the model

  // Some point of the placed triangle lies strictly inside the sphere.
  ghost predicate TouchesPlaced(t: Triangle, world: Rigid, center: Point, radius2: real) {
    exists u: real, v: real :: Barycentric(u, v) && world.Apply(At(t, u, v)).SquareDistance(center) < radius2
  }

  lemma KeepsDistance(world: Rigid, p: Point, q: Point)
    requires world.rot.Rotation()
    ensures world.Apply(p).SquareDistance(world.Apply(q)) == p.SquareDistance(q)
  {
    var d := p.Minus(q);
    Difference(world.rot, p, q);
    assert world.Apply(p).Minus(world.Apply(q)) == world.rot.Apply(p).Minus(world.rot.Apply(q));
    LengthIsDot(d);
    LengthIsDot(world.rot.Apply(d));
    hide Matrix3.Rotation, Matrix3.Apply, Point.Dot, Rigid.Apply;
    KeepsDot(world.rot, d, d);
  }

  lemma LengthIsDot(d: Point)
    ensures d.SquareMagnitude() == d.Dot(d)
  {
  }

  // Moving the center back into the space of the model changes nothing for the triangles.
  lemma TouchingInWorld(t: Triangle, world: Rigid, center: Point, radius2: real)
    requires world.rot.Rotation()
    ensures Touches(t, Inverse(world).Apply(center), radius2) <==> TouchesPlaced(t, world, center, radius2)
  {
    hide At, Barycentric, Rigid.Apply, Matrix3.Rotation, Inverse, Point.SquareDistance;
    var c := Inverse(world).Apply(center);
    InverseUndoes(world, center);
    forall u: real, v: real ensures world.Apply(At(t, u, v)).SquareDistance(center) == At(t, u, v).SquareDistance(c) {
      KeepsDistance(world, At(t, u, v), c);
    }
  }

  lemma SquareIs(a: real)
    ensures Sq(a) == a * a
  {
  }

  lemma ProductIs(a: real, b: real)
    ensures Mul(a, b) == a * b
  {
  }

  function CenterInModel(center: Point, worlds: World, worldm: World): Point {
    Inverse(worldm.Value()).Apply(worlds.Value().Apply(center))
  }

  class SphereQuery {
    const volume: Volume
    const sqrt: Root
    var mCenter: Point
    var mRadius2: real
    var fatCenter: Point
    var fatRadius2: real
    var fatCoeff: real

    constructor (volume: Volume, sqrt: Root)
      ensures this.volume == volume && this.sqrt == sqrt
      ensures CacheNow() == Fresh(1.1).(touched := volume.mTouchedPrimitives)
    {
      this.volume := volume;
      this.sqrt := sqrt;
      fatCenter, fatRadius2, fatCoeff := ORIGIN, 0.0, 1.1;
      mCenter := Point(0.0, 0.0, 0.0);
      mRadius2 := 0.0;
    }

    // What the query reports of a tree, with or without leaf nodes.
    ghost function FoundIn(t: Tree, boxed: bool): seq<nat>
      requires volume.mesh.Valid()
      reads this
    {
      Reports(t, mCenter, mRadius2, volume.mesh, boxed)
    }

    method SphereTriOverlap(vert0: Point, vert1: Point, vert2: Point) returns (overlap: bool)
      modifies volume`mNbVolumePrimTests
      ensures overlap == Reported(Triangle(vert0, vert1, vert2), mCenter, mRadius2)
    {
      volume.mNbVolumePrimTests := volume.mNbVolumePrimTests + 1;
      var triEdge0 := vert1.Minus(vert0);
      var triEdge1 := vert2.Minus(vert0);
      var kDiff := vert0.Minus(mCenter);
      var fA00 := triEdge0.SquareMagnitude();
      var fA01 := triEdge0.Dot(triEdge1);
      var fA11 := triEdge1.SquareMagnitude();
      var fB0 := kDiff.Dot(triEdge0);
      var fB1 := kDiff.Dot(triEdge1);
      var fC := kDiff.SquareMagnitude();
      ghost var t := Triangle(vert0, vert1, vert2);
      assert Quad(fA00, fA01, fA11, fB0, fB1, fC) == FormOf(t, mCenter);
      hide FormOf, Quad.Det, Quad.U, Quad.V, Quad.Definite, Point.SquareMagnitude, Point.Dot, Degenerate, Touches;
      DetSign(t, mCenter);
      if Degenerate(t) {
        DegenerateNumerators(t, mCenter);
      }
      var sqrDist, u, v := LeastDistance(fA00, fA01, fA11, fB0, fB1, fC);
      if !Degenerate(t) {
        LeastDecidesTouch(t, mCenter, mRadius2, u, v, sqrDist);
      }
      return Abs(sqrDist) < mRadius2;
    }

    method SpherePrim(prim: nat, temporal: bool)
      requires volume.mesh.Valid() && prim < |volume.mesh.faces|
      modifies volume
      ensures var near := Near(mCenter, mRadius2, volume.mesh)(prim);
              && volume.mTouchedPrimitives ==
                 old(volume.mTouchedPrimitives) + Accepted([prim], Near(mCenter, mRadius2, volume.mesh))
              && volume.mFlags == if !near then old(volume.mFlags)
                                  else if temporal then old(volume.mFlags).TemporallyTouched()
                                    else old(volume.mFlags).Touched()
    {
      hide Reported;
      ScanOfOne(prim, Near(mCenter, mRadius2, volume.mesh));
      var t := volume.mesh.Tri(prim);
      var overlap := SphereTriOverlap(t.v0, t.v1, t.v2);
      if overlap {
        volume.mFlags := if temporal then volume.mFlags.TemporallyTouched() else volume.mFlags.Touched();
        volume.mTouchedPrimitives := volume.mTouchedPrimitives + [prim];
      }
    }

    // A leaf that only the triangle test decides about.
    lemma LeafFound(p: nat, flags: Flags, touched: seq<nat>, flags': Flags, touched': seq<nat>)
      requires volume.mesh.Valid() && !flags.ContactFound()
      requires var near := Near(mCenter, mRadius2, volume.mesh);
               touched' == touched + Accepted([p], near) && flags' == if near(p) then flags.Touched() else flags
      ensures FoundStep(touched, flags, touched', flags', Accepted([p], Near(mCenter, mRadius2, volume.mesh)))
    {
      hide Near;
      ScanOfOne(p, Near(mCenter, mRadius2, volume.mesh));
    }

    // Adds up the gaps on the three axes, giving up as soon as they exceed the radius.
    method SphereAABBOverlap(center: Point, extents: Point) returns (overlap: bool)
      modifies volume`mNbVolumeBVTests
      ensures overlap <==> BoxGap2(mCenter, Box(center, extents)) <= mRadius2
    {
      volume.mNbVolumeBVTests := volume.mNbVolumeBVTests + 1;
      GapNonNegative(mCenter.x, center.x, extents.x);
      GapNonNegative(mCenter.y, center.y, extents.y);
      GapNonNegative(mCenter.z, center.z, extents.z);
      hide Sq;
      var d := 0.0;
      var tmp := mCenter.x - center.x;
      var s := tmp + extents.x;
      if s < 0.0 {
        d := d + Sq(s);
        if d > mRadius2 { return false; }
      } else {
        s := tmp - extents.x;
        if s > 0.0 {
          d := d + Sq(s);
          if d > mRadius2 { return false; }
        }
      }
      tmp := mCenter.y - center.y;
      s := tmp + extents.y;
      if s < 0.0 {
        d := d + Sq(s);
        if d > mRadius2 { return false; }
      } else {
        s := tmp - extents.y;
        if s > 0.0 {
          d := d + Sq(s);
          if d > mRadius2 { return false; }
        }
      }
      tmp := mCenter.z - center.z;
      s := tmp + extents.z;
      if s < 0.0 {
        d := d + Sq(s);
        if d > mRadius2 { return false; }
      } else {
        s := tmp - extents.z;
        if s > 0.0 {
          d := d + Sq(s);
          if d > mRadius2 { return false; }
        }
      }
      return d <= mRadius2;
    }

    // Tries the eight corners one after the other.
    method SphereContainsBox(bc: Point, be: Point) returns (contains: bool)
      ensures contains == CornersInside(mCenter, mRadius2, Box(bc, be))
    {
      hide Point.SquareDistance;
      ghost var b := Box(bc, be);
      var p := Point(bc.x + be.x, bc.y + be.y, bc.z + be.z);
      assert p == Corner(b, true, true, true);
      if mCenter.SquareDistance(p) >= mRadius2 { return false; }
      p := p.(x := bc.x - be.x);
      assert p == Corner(b, false, true, true);
      if mCenter.SquareDistance(p) >= mRadius2 { return false; }
      p := p.(x := bc.x + be.x);
      p := p.(y := bc.y - be.y);
      assert p == Corner(b, true, false, true);
      if mCenter.SquareDistance(p) >= mRadius2 { return false; }
      p := p.(x := bc.x - be.x);
      assert p == Corner(b, false, false, true);
      if mCenter.SquareDistance(p) >= mRadius2 { return false; }
      p := p.(x := bc.x + be.x);
      p := p.(y := bc.y + be.y);
      p := p.(z := bc.z - be.z);
      assert p == Corner(b, true, true, false);
      if mCenter.SquareDistance(p) >= mRadius2 { return false; }
      p := p.(x := bc.x - be.x);
      assert p == Corner(b, false, true, false);
      if mCenter.SquareDistance(p) >= mRadius2 { return false; }
      p := p.(x := bc.x + be.x);
      p := p.(y := bc.y - be.y);
      assert p == Corner(b, true, false, false);
      if mCenter.SquareDistance(p) >= mRadius2 { return false; }
      p := p.(x := bc.x - be.x);
      assert p == Corner(b, false, false, false);
      if mCenter.SquareDistance(p) >= mRadius2 { return false; }
      return true;
    }

    method CollideNode(flat: Flat, node: nat, ghost t: Tree)
      requires volume.mesh.Valid() && !volume.mFlags.ContactFound()
      requires flat.Holds(node, t) && Covers(t, volume.mesh)
      modifies volume
      ensures volume.Found(FoundIn(t, true))
      decreases t
    {
      hide Covers, Prims, Accepted, CornersInside, BoxGap2, Near, FoundStep, Report;
      hide Flat.Holds, Flat.At, Flat.Points, IsLeafWord, PrimitiveOf;
      HoldsStep(flat, node, t);
      ghost var m, flags, touched := volume.mesh, volume.mFlags, volume.mTouchedPrimitives;
      NodeFacts(t, m);
      var n := flat.At(node);
      var overlap := SphereAABBOverlap(n.box.center, n.box.extents);
      if !overlap {
        FoundNone(touched, flags);
        return;
      }
      var contains := SphereContainsBox(n.box.center, n.box.extents);
      if contains {
        FoundAll(touched, flags, Prims(t));
        volume.mFlags := volume.mFlags.Touched();
        volume.Dump(flat, node, t);
        return;
      }
      if IsLeafWord(n.data) {
        SpherePrim(PrimitiveOf(n.data), false);
        LeafFound(t.prim, flags, touched, volume.mFlags, volume.mTouchedPrimitives);
      } else {
        CollideNode(flat, n.data, t.pos);
        ghost var flags1, touched1 := volume.mFlags, volume.mTouchedPrimitives;
        if !volume.mFlags.ContactFound() {
          CollideNode(flat, n.data + NODE_SIZE, t.neg);
        }
        FoundBoth(touched, flags, touched1, flags1, volume.mTouchedPrimitives, volume.mFlags,
                  FoundIn(t.pos, true), FoundIn(t.neg, true));
      }
    }

    method CollideNoLeafNode(flat: NoLeafFlat, node: nat, ghost t: Tree)
      requires volume.mesh.Valid() && !volume.mFlags.ContactFound()
      requires flat.Holds(node, t) && Covers(t, volume.mesh)
      modifies volume
      ensures volume.Found(FoundIn(t, false))
      decreases t, 0
    {
      hide Covers, Prims, Accepted, CornersInside, BoxGap2, Near, FoundStep, Report;
      hide NoLeafFlat.Holds, NoLeafFlat.HoldsChild, NoLeafFlat.At, NoLeafFlat.Points, IsLeafWord, PrimitiveOf;
      NoLeafHoldsStep(flat, node, t);
      ghost var m, flags, touched := volume.mesh, volume.mFlags, volume.mTouchedPrimitives;
      NodeFacts(t, m);
      var n := flat.At(node);
      var overlap := SphereAABBOverlap(n.box.center, n.box.extents);
      if !overlap {
        FoundNone(touched, flags);
        return;
      }
      var contains := SphereContainsBox(n.box.center, n.box.extents);
      if contains {
        FoundAll(touched, flags, Prims(t));
        volume.mFlags := volume.mFlags.Touched();
        volume.DumpNoLeaf(flat, node, t);
        return;
      }
      CollideNoLeafChild(flat, n.data, t.pos);
      ghost var flags1, touched1 := volume.mFlags, volume.mTouchedPrimitives;
      if !volume.mFlags.ContactFound() {
        CollideNoLeafChild(flat, n.data2, t.neg);
      }
      FoundBoth(touched, flags, touched1, flags1, volume.mTouchedPrimitives, volume.mFlags,
                FoundIn(t.pos, false), FoundIn(t.neg, false));
    }

    method CollideNoLeafChild(flat: NoLeafFlat, word: nat, ghost t: Tree)
      requires volume.mesh.Valid() && !volume.mFlags.ContactFound()
      requires flat.HoldsChild(word, t) && Covers(t, volume.mesh)
      modifies volume
      ensures volume.Found(FoundIn(t, false))
      decreases t, 1
    {
      hide Covers, Prims, Accepted, Near, CornersInside, BoxGap2, FoundStep, Report;
      hide NoLeafFlat.Holds, NoLeafFlat.HoldsChild, IsLeafWord, PrimitiveOf;
      HoldsChildStep(flat, word, t);
      NodeFacts(t, volume.mesh);
      ghost var flags, touched := volume.mFlags, volume.mTouchedPrimitives;
      if IsLeafWord(word) {
        SpherePrim(PrimitiveOf(word), false);
        LeafFound(t.prim, flags, touched, volume.mFlags, volume.mTouchedPrimitives);
      } else {
        CollideNoLeafNode(flat, word, t);
      }
    }

    function CacheNow(): Cache
      reads this, volume
    {
      Cache(volume.mTouchedPrimitives, fatCenter, fatRadius2, fatCoeff)
    }

    // The center as the code moves it, through the sphere's world matrix and back through the
    // model's; then the cache is asked, and the radius enlarged when the cache is to be refilled.
    method InitQuery(center: Point, radius: real, worlds: World, worldm: World) returns (status: bool)
      requires volume.mesh.Valid() && forall p <- volume.mTouchedPrimitives :: p < |volume.mesh.faces|
      modifies this, volume
      ensures mCenter == CenterInModel(center, worlds, worldm)
      ensures status == volume.mFlags.contact && fatCoeff == old(fatCoeff)
      ensures status == FromCache(sqrt, volume.mesh, Sphere(mCenter, radius), old(volume.mFlags), old(CacheNow()))
      ensures volume.mFlags == old(volume.mFlags).Cleared().(contact := status, temporalHit := status)
      ensures volume.mTouchedPrimitives ==
              if !status then []
              else if volume.mFlags.firstContact then [old(volume.mTouchedPrimitives)[0]]
              else old(volume.mTouchedPrimitives)
      ensures if Refattens(sqrt, Sphere(mCenter, radius), old(volume.mFlags), old(CacheNow())) then
                mRadius2 == Mul(Sq(radius), fatCoeff) && fatCenter == mCenter && fatRadius2 == mRadius2
              else
                mRadius2 == Sq(radius) && fatCenter == old(fatCenter) && fatRadius2 == old(fatRadius2)
    {
      hide Near, Rigid.Apply, Inverse, Point.SquareDistance, Accepted, Sq, Mul;
      SquareIs(radius);
      volume.InitQueryEx();
      mRadius2 := radius * radius;
      mCenter := center;
      IdentityTurnsBack();
      IdentityApplies(center);
      if worlds.Set? {
        mCenter := worlds.matrix.Apply(mCenter);
      }
      IdentityApplies(mCenter);
      if worldm.Set? {
        var invWorldM := InvertPRMatrix(worldm.matrix);
        mCenter := invWorldM.Apply(mCenter);
      }
      if volume.mFlags.temporalCoherence {
        if volume.mFlags.firstContact {
          if volume.mTouchedPrimitives != [] {
            var previous := volume.mTouchedPrimitives[0];
            assert previous in volume.mTouchedPrimitives;
            volume.mTouchedPrimitives := [];
            ScanOfOne(previous, Near(mCenter, mRadius2, volume.mesh));
            SpherePrim(previous, true);
          }
        } else {
          var r := sqrt(fatRadius2) - radius;
          SquareIs(r);
          if fatCenter.SquareDistance(mCenter) < r * r {
            if volume.mTouchedPrimitives != [] {
              volume.mFlags := volume.mFlags.TemporallyTouched();
            }
          } else {
            volume.mTouchedPrimitives := [];
            ProductIs(mRadius2, fatCoeff);
            mRadius2 := mRadius2 * fatCoeff;
            fatCenter := mCenter;
            fatRadius2 := mRadius2;
          }
        }
      } else {
        volume.mTouchedPrimitives := [];
      }
      status := volume.mFlags.contact;
    }

    // A whole query, in every mode.
    method Collide(center: Point, radius: real, worlds: World, worldm: World, flat: Flat, ghost t: Tree)
      requires Covers(t, volume.mesh) && flat.Holds(flat.base, t)
      requires forall p <- volume.mTouchedPrimitives :: p in Prims(t)
      modifies this, volume
      ensures Answered(t, true, Sphere(CenterInModel(center, worlds, worldm), radius), old(volume.mFlags),
                       old(CacheNow()))
    {
      hide Covers, Prims, Near, Rigid.Apply, Inverse, Reports, World.Value, Reused;
      CachedPrims(volume.mesh, t, volume.mTouchedPrimitives);
      var status := InitQuery(center, radius, worlds, worldm);
      if !status {
        CollideNode(flat, flat.base, t);
      }
    }

    method CollideNoLeaf(center: Point, radius: real, worlds: World, worldm: World, flat: NoLeafFlat, ghost t: Tree)
      requires Covers(t, volume.mesh) && flat.Holds(flat.base, t)
      requires forall p <- volume.mTouchedPrimitives :: p in Prims(t)
      modifies this, volume
      ensures Answered(t, false, Sphere(CenterInModel(center, worlds, worldm), radius), old(volume.mFlags),
                       old(CacheNow()))
    {
      hide Covers, Prims, Near, Rigid.Apply, Inverse, Reports, World.Value, Reused;
      CachedPrims(volume.mesh, t, volume.mTouchedPrimitives);
      var status := InitQuery(center, radius, worlds, worldm);
      if !status {
        CollideNoLeafNode(flat, flat.base, t);
      }
    }

    // What a whole query leaves behind: the list, the cached sphere and the contact bits.
    ghost predicate Answered(t: Tree, boxed: bool, s: Sphere, flags: Flags, c: Cache)
      requires volume.mesh.Valid()
      reads this, volume
    {
      && CacheNow() == Answer(t, volume.mesh, boxed, sqrt, s, flags, c)
      && volume.mFlags == FlagsAfter(volume.mesh, sqrt, s, flags, c, volume.mTouchedPrimitives)
    }
  }
}
