// Queries with an oriented box: what is computed once, the tests that rely on it, the traversals.
module ObbCollider {
  import opened RealArithmetic
  import opened Geometry
  import opened RigidTransforms
  import opened WorldTransforms
  import opened OrientedBoxes
  import opened BoxBoxTest
  import opened ObbTriangles
  import SeparatingAxes
  import TriangleBox
  import TriangleBoxTest
  import opened BoxTree
  import opened FlatTree
  import opened Collider
  import opened VolumeCollider

  // The reach of an axis-aligned box along one column of a matrix.
  function ColumnReach(m0: real, m1: real, m2: real, e: Point): real {
    AbsTimes(m0, e.x) + AbsTimes(m1, e.y) + AbsTimes(m2, e.z)
  }

  function AbsTimes(m: real, e: real): real { Abs(m * e) }

  // A coordinate of a point turned by a matrix, given the matrix's column.
  function Column(m0: real, m1: real, m2: real, p: Point): real { p.x * m0 + p.y * m1 + p.z * m2 }

  class ObbQuery {
    const volume: Volume
    var mFullBoxBoxTest: bool
    var mBoxExtents: Point
    var mModelToBox: Rigid
    var mBoxToModel: Rigid
    var mAR: Matrix3
    var mB0: Point
    var mB1: Point
    var mBB: Point
    // The second-box part of the nine mixed axes, one point for each side of the first box.
    var mBBX: Point
    var mBBY: Point
    var mBBZ: Point

    constructor (volume: Volume)
      ensures this.volume == volume && mFullBoxBoxTest
    {
      this.volume := volume;
      mFullBoxBoxTest := true;
      mBoxExtents, mB0, mB1, mBB, mBBX, mBBY, mBBZ := ORIGIN, ORIGIN, ORIGIN, ORIGIN, ORIGIN, ORIGIN, ORIGIN;
      mModelToBox, mBoxToModel, mAR := IDENTITY, IDENTITY, IDENTITY.rot;
    }

    ghost predicate Precomputed()
      reads this
    {
      && mBoxToModel.rot.Rotation()
      && Undo(mModelToBox, mBoxToModel)
      && mAR == AbsMatrix(mBoxToModel.rot)
      && mB0 == mBoxExtents.Minus(mModelToBox.trans)
      && mB1 == ORIGIN.Minus(mBoxExtents).Minus(mModelToBox.trans)
      && Parts(mBB, mBBX, mBBY, mBBZ, mBoxExtents, mAR)
    }

    // Both transforms between box and model, from the box's own rotation and the world matrices.
    method Precompute(box: Rigid, extents: Point, worldb: World, worldm: World)
      requires box.rot.Rotation() && worldb.Value().rot.Rotation() && worldm.Value().rot.Rotation()
      modifies this
      ensures Precomputed() && mBoxExtents == extents && mFullBoxBoxTest == old(mFullBoxBoxTest)
      ensures forall p: Point ::
                worldm.Value().Apply(mBoxToModel.Apply(p)) == worldb.Value().Apply(box.Apply(p))
    {
      hide Matrix3.Rotation, Rigid.Apply, AbsMatrix, Parts, Then, Inverse, Matrix3.Apply;
      mBoxExtents := extents;
      var worldB := if worldb.Set? then Then(box, worldb.matrix) else box;
      ThenRotates(box, worldb.Value());
      var invWorldB := InvertPRMatrix(worldB);
      if worldm.Set? {
        var invWorldM := InvertPRMatrix(worldm.matrix);
        mBoxToModel := Then(worldB, invWorldM);
        mModelToBox := Then(worldm.matrix, invWorldB);
        InverseRotates(worldm.matrix);
        ThenRotates(worldB, invWorldM);
      } else {
        mModelToBox := invWorldB;
        mBoxToModel := worldB;
      }
      ghost var toBox, toModel := mModelToBox, mBoxToModel;
      forall p: Point
        ensures worldm.Value().Apply(toModel.Apply(p)) == worldb.Value().Apply(box.Apply(p))
        ensures toBox.Apply(toModel.Apply(p)) == p && toModel.Apply(toBox.Apply(p)) == p
      {
        BoxInWorld(box, worldb, worldB, p);
        if worldm.Set? {
          ThereAndBack(worldB, worldm.matrix, p);
          ThereAndBack(worldm.matrix, worldB, p);
        } else {
          IdentityApplies(worldB.Apply(p));
          InverseUndoes(worldB, p);
        }
      }
      mAR := AbsMatrix(mBoxToModel.rot);
      mB0 := mBoxExtents.Minus(mModelToBox.trans);
      mB1 := ORIGIN.Minus(mBoxExtents).Minus(mModelToBox.trans);
      mBB, mBBX, mBBY, mBBZ := SecondBoxParts(mBoxExtents, mAR);
    }

    // The fifteen axes with everything that depends on the query box alone computed beforehand.
    method BoxBoxOverlap(extents: Point, center: Point) returns (overlap: bool)
      requires Precomputed()
      modifies volume`mNbVolumeBVTests
      ensures volume.mNbVolumeBVTests == old(volume.mNbVolumeBVTests) + 1
      ensures overlap == AxesMeet(mBoxToModel.Apply(ORIGIN).Minus(center), mBoxToModel.rot, extents, mBoxExtents,
                                  mFullBoxBoxTest || volume.mNbVolumeBVTests == 1)
    {
      hide Matrix3.Rotation, Rigid.Apply, AbsMatrix, RowMeets, SidesMeet, RowsMeet, CrossesMeet, Matrix3.Apply;
      volume.mNbVolumeBVTests := volume.mNbVolumeBVTests + 1;
      var t := mBoxToModel.trans.Minus(center);
      OriginMoves(mBoxToModel);
      SidesFromParts(t, extents, mBB, mBBX, mBBY, mBBZ, mBoxExtents, mAR);
      if Abs(t.x) > extents.x + mBB.x { return false; }
      if Abs(t.y) > extents.y + mBB.y { return false; }
      if Abs(t.z) > extents.z + mBB.z { return false; }
      overlap := RowsTest(t, mBoxToModel.rot, extents, mBoxExtents, mAR);
      if !overlap { return; }
      if mFullBoxBoxTest || volume.mNbVolumeBVTests == 1 {
        CrossesFromParts(t, mBoxToModel.rot, extents, mBB, mBBX, mBBY, mBBZ, mBoxExtents, mAR);
        overlap := CrossesTest(t, mBoxToModel.rot, extents, mAR, mBBX, mBBY, mBBZ);
      }
    }

    // The box's bounds in the oriented box's space, against its extents.
    method OBBContainsBox(bc: Point, be: Point) returns (contains: bool)
      requires Precomputed() && be.x >= 0.0 && be.y >= 0.0 && be.z >= 0.0
      ensures contains <==> forall p: Point :: InBox(p, Box(bc, be)) ==> InExtents(mModelToBox.Apply(p), mBoxExtents)
    {
      ContainsByColumns(mModelToBox, bc, be, mBoxExtents);
      hide Matrix3.Rotation, Rigid.Apply, InExtents, InBox, ColumnReach, Column, Precomputed;
      assert mB0 == mBoxExtents.Minus(mModelToBox.trans)
             && mB1 == ORIGIN.Minus(mBoxExtents).Minus(mModelToBox.trans) by {
        PrecomputedBounds();
      }
      var m := mModelToBox.rot;
      hide Abs;
      var nc := Column(m.r0.x, m.r1.x, m.r2.x, bc);
      var ne := ColumnReach(m.r0.x, m.r1.x, m.r2.x, be);
      if mB0.x < nc + ne { return false; }
      if mB1.x > nc - ne { return false; }
      nc := Column(m.r0.y, m.r1.y, m.r2.y, bc);
      ne := ColumnReach(m.r0.y, m.r1.y, m.r2.y, be);
      if mB0.y < nc + ne { return false; }
      if mB1.y > nc - ne { return false; }
      nc := Column(m.r0.z, m.r1.z, m.r2.z, bc);
      ne := ColumnReach(m.r0.z, m.r1.z, m.r2.z, be);
      if mB0.z < nc + ne { return false; }
      return !(mB1.z > nc - ne);
    }

    lemma PrecomputedBounds()
      requires Precomputed()
      ensures mB0 == mBoxExtents.Minus(mModelToBox.trans) && mB1 == ORIGIN.Minus(mBoxExtents).Minus(mModelToBox.trans)
    {
    }

    // ---- the query on a tree

    ghost predicate Ready()
      reads this
    {
      Precomputed() && SeparatingAxes.NonNegative(mBoxExtents) && volume.mesh.Valid()
    }

    // The triangles with a point in the box.
    ghost function Hits(): nat -> bool
      reads this
      requires volume.mesh.Valid()
    {
      Reaching(mModelToBox, mBoxExtents, volume.mesh)
    }

    method TriBoxOverlap(t: Triangle) returns (overlap: bool)
      modifies volume`mNbVolumePrimTests
      ensures overlap == TriangleBox.Overlap(Box(ORIGIN, mBoxExtents), t, true)
    {
      hide TriangleBox.Overlap;
      volume.mNbVolumePrimTests := volume.mNbVolumePrimTests + 1;
      overlap := TriangleBoxTest.TriBoxOverlap(t, ORIGIN, mBoxExtents, true);
    }

    method ObbPrim(prim: nat)
      requires Ready() && prim < |volume.mesh.faces|
      modifies volume
      ensures volume.Scanned([prim], Hits())
    {
      hide TriangleBox.Overlap, Precomputed, Moved, Reaches;
      var t := volume.mesh.Tri(prim);
      var overlap := TriBoxOverlap(Moved(t, mModelToBox));
      TestIsReach(mModelToBox, mBoxExtents, t);
      ScanOfOne(prim, Hits());
      if overlap {
        volume.Touch(prim);
      }
    }

    // Fewer axes are tested after the first box unless all are asked for; none of that loses a triangle.
    lemma RejectedNode(t: Tree, full: bool)
      requires Ready() && Covers(t, volume.mesh)
      requires !AxesMeet(mBoxToModel.Apply(ORIGIN).Minus(t.box.center), mBoxToModel.rot, t.box.extents, mBoxExtents,
                         full)
      ensures Accepted(Prims(t), Hits()) == []
    {
      hide AxesMeet, Rigid.Apply, Matrix3.Rotation, Covers, ShareAPoint, Parts, Undo;
      if ShareAPoint(t.box, Box(ORIGIN, mBoxExtents), mBoxToModel) {
        TouchingNodesAreKept(this, t.box, full);
      }
      Missed(mModelToBox, mBoxToModel, mBoxExtents, volume.mesh, t);
    }

    // A box rejected holds no triangle that is hit; a box inside holds no other.
    method NodeOverlaps(box: Box, ghost t: Tree) returns (overlap: bool)
      requires Ready() && Covers(t, volume.mesh) && box == t.box
      modifies volume`mNbVolumeBVTests
      ensures !overlap ==> Accepted(Prims(t), Hits()) == []
    {
      hide Covers, Prims, AxesMeet, Reaching, Accepted, Parts, Undo, Rigid.Apply, Matrix3.Rotation,
           SeparatingAxes.NonNegative;
      overlap := BoxBoxOverlap(box.extents, box.center);
      if !overlap {
        RejectedNode(t, mFullBoxBoxTest || volume.mNbVolumeBVTests == 1);
      }
    }

    method NodeInside(box: Box, ghost t: Tree) returns (inside: bool)
      requires Ready() && Covers(t, volume.mesh) && box == t.box
      ensures inside ==> Accepted(Prims(t), Hits()) == Prims(t)
    {
      hide Covers, Prims, Reaching, Accepted, Parts, Undo, Rigid.Apply, Matrix3.Rotation, InBox, InExtents;
      BoxHasExtent(t, volume.mesh);
      inside := OBBContainsBox(box.center, box.extents);
      if inside {
        AllInside(mModelToBox, mBoxExtents, volume.mesh, t);
      }
    }

    method CollideNode(flat: Flat, node: nat, ghost t: Tree)
      requires Ready() && !volume.mFlags.ContactFound()
      requires flat.Holds(node, t) && Covers(t, volume.mesh)
      modifies volume
      ensures volume.Scanned(Prims(t), Hits())
      decreases t
    {
      hide Covers, Prims, ObbQuery.Hits, Accepted, ObbQuery.Ready, ScanStep, Report, Flat.Holds, Flat.At, Flat.Points,
           IsLeafWord, PrimitiveOf;
      HoldsStep(flat, node, t);
      NodeFacts(t, volume.mesh);
      ghost var hit, touched, flags := Hits(), volume.mTouchedPrimitives, volume.mFlags;
      var n := flat.At(node);
      var overlap := NodeOverlaps(n.box, t);
      if !overlap {
        StepOverNone(touched, flags, Prims(t), hit);
        return;
      }
      var inside := NodeInside(n.box, t);
      if inside {
        StepOverAll(touched, flags, Prims(t), hit);
        volume.mFlags := volume.mFlags.Touched();
        volume.Dump(flat, node, t);
        return;
      }
      if IsLeafWord(n.data) {
        ObbPrim(PrimitiveOf(n.data));
      } else {
        CollideNode(flat, n.data, t.pos);
        ghost var touched1, flags1 := volume.mTouchedPrimitives, volume.mFlags;
        if !volume.mFlags.ContactFound() {
          CollideNode(flat, n.data + NODE_SIZE, t.neg);
        }
        StepOverBoth(touched, flags, touched1, flags1, volume.mTouchedPrimitives, volume.mFlags, Prims(t.pos),
                     Prims(t.neg), hit);
      }
    }

    method CollideNoLeafNode(flat: NoLeafFlat, node: nat, ghost t: Tree)
      requires Ready() && !volume.mFlags.ContactFound()
      requires flat.Holds(node, t) && Covers(t, volume.mesh)
      modifies volume
      ensures volume.Scanned(Prims(t), Hits())
      decreases t, 0
    {
      hide Covers, Prims, ObbQuery.Hits, Accepted, ObbQuery.Ready, ScanStep, Report, NoLeafFlat.Holds,
           NoLeafFlat.HoldsChild, NoLeafFlat.At, NoLeafFlat.Points, IsLeafWord, PrimitiveOf;
      NoLeafHoldsStep(flat, node, t);
      NodeFacts(t, volume.mesh);
      ghost var hit, touched, flags := Hits(), volume.mTouchedPrimitives, volume.mFlags;
      var n := flat.At(node);
      var overlap := NodeOverlaps(n.box, t);
      if !overlap {
        StepOverNone(touched, flags, Prims(t), hit);
        return;
      }
      var inside := NodeInside(n.box, t);
      if inside {
        StepOverAll(touched, flags, Prims(t), hit);
        volume.mFlags := volume.mFlags.Touched();
        volume.DumpNoLeaf(flat, node, t);
        return;
      }
      CollideNoLeafChild(flat, n.data, t.pos);
      ghost var touched1, flags1 := volume.mTouchedPrimitives, volume.mFlags;
      if !volume.mFlags.ContactFound() {
        CollideNoLeafChild(flat, n.data2, t.neg);
      }
      StepOverBoth(touched, flags, touched1, flags1, volume.mTouchedPrimitives, volume.mFlags, Prims(t.pos),
                   Prims(t.neg), hit);
    }

    method CollideNoLeafChild(flat: NoLeafFlat, word: nat, ghost t: Tree)
      requires Ready() && !volume.mFlags.ContactFound()
      requires flat.HoldsChild(word, t) && Covers(t, volume.mesh)
      modifies volume
      ensures volume.Scanned(Prims(t), Hits())
      decreases t, 1
    {
      hide Covers, Prims, Reaching, Accepted, Precomputed, SeparatingAxes.NonNegative;
      NodeFacts(t, volume.mesh);
      if IsLeafWord(word) {
        ObbPrim(PrimitiveOf(word));
      } else {
        CollideNoLeafNode(flat, word, t);
      }
    }

    // Sets everything up, then asks the previous first contact if there is one to ask.
    method InitQuery(box: Rigid, extents: Point, worldb: World, worldm: World) returns (status: bool)
      requires box.rot.Rotation() && worldb.Value().rot.Rotation() && worldm.Value().rot.Rotation()
      requires SeparatingAxes.NonNegative(extents) && volume.mesh.Valid()
      requires forall p <- volume.mTouchedPrimitives :: p < |volume.mesh.faces|
      modifies this, volume
      ensures Ready() && mBoxExtents == extents && mFullBoxBoxTest == old(mFullBoxBoxTest)
      ensures forall p: Point ::
                worldm.Value().Apply(mBoxToModel.Apply(p)) == worldb.Value().Apply(box.Apply(p))
      ensures status == FromCache(old(volume.mFlags), old(volume.mTouchedPrimitives), Hits())
      ensures volume.mFlags == old(volume.mFlags).Cleared().(contact := status)
      ensures volume.mTouchedPrimitives == if status then [old(volume.mTouchedPrimitives)[0]] else []
    {
      hide Precomputed, Reaching, Matrix3.Rotation, Rigid.Apply, Accepted, SeparatingAxes.NonNegative;
      volume.InitQueryEx();
      Precompute(box, extents, worldb, worldm);
      if volume.mFlags.temporalCoherence {
        if volume.mFlags.firstContact {
          if volume.mTouchedPrimitives != [] {
            var previous := volume.mTouchedPrimitives[0];
            assert previous in volume.mTouchedPrimitives;
            volume.mTouchedPrimitives := [];
            ScanOfOne(previous, Hits());
            ObbPrim(previous);
          }
        } else {
          volume.mTouchedPrimitives := [];
        }
      } else {
        volume.mTouchedPrimitives := [];
      }
      status := volume.mFlags.contact;
    }

    // A whole query: what is reported meets the box where both objects stand in the world.
    method Collide(box: Rigid, extents: Point, worldb: World, worldm: World, flat: Flat, ghost t: Tree)
      requires box.rot.Rotation() && worldb.Value().rot.Rotation() && worldm.Value().rot.Rotation()
      requires SeparatingAxes.NonNegative(extents) && Covers(t, volume.mesh) && flat.Holds(flat.base, t)
      requires forall p <- volume.mTouchedPrimitives :: p in Prims(t)
      modifies this, volume
      ensures var hit := MeetingInWorld(box, extents, worldb.Value(), worldm.Value(), volume.mesh);
              && volume.mTouchedPrimitives == Answer(Prims(t), old(volume.mFlags), old(volume.mTouchedPrimitives), hit)
              && volume.mFlags == old(volume.mFlags).Cleared().(contact := volume.mTouchedPrimitives != [])
    {
      hide Covers, Prims, Precomputed, Reaching, MeetingInWorld, Matrix3.Rotation, Rigid.Apply, Accepted,
           SeparatingAxes.NonNegative, Undo;
      CachedPrims(volume.mesh, t, volume.mTouchedPrimitives);
      var status := InitQuery(box, extents, worldb, worldm);
      HitsInWorld(Prims(t), box, worldb.Value(), worldm.Value());
      if !status {
        CollideNode(flat, flat.base, t);
      }
    }

    method CollideNoLeaf(box: Rigid, extents: Point, worldb: World, worldm: World, flat: NoLeafFlat, ghost t: Tree)
      requires box.rot.Rotation() && worldb.Value().rot.Rotation() && worldm.Value().rot.Rotation()
      requires SeparatingAxes.NonNegative(extents) && Covers(t, volume.mesh) && flat.Holds(flat.base, t)
      requires forall p <- volume.mTouchedPrimitives :: p in Prims(t)
      modifies this, volume
      ensures var hit := MeetingInWorld(box, extents, worldb.Value(), worldm.Value(), volume.mesh);
              && volume.mTouchedPrimitives == Answer(Prims(t), old(volume.mFlags), old(volume.mTouchedPrimitives), hit)
              && volume.mFlags == old(volume.mFlags).Cleared().(contact := volume.mTouchedPrimitives != [])
    {
      hide Covers, Prims, Precomputed, Reaching, MeetingInWorld, Matrix3.Rotation, Rigid.Apply, Accepted,
           SeparatingAxes.NonNegative, Undo;
      CachedPrims(volume.mesh, t, volume.mTouchedPrimitives);
      var status := InitQuery(box, extents, worldb, worldm);
      HitsInWorld(Prims(t), box, worldb.Value(), worldm.Value());
      if !status {
        CollideNoLeafNode(flat, flat.base, t);
      }
    }

    // In the world and in the space of the box the same triangles are hit.
    lemma HitsInWorld(l: seq<nat>, box: Rigid, worldb: Rigid, worldm: Rigid)
      requires Ready() && worldm.rot.Rotation()
      requires forall p: Point :: worldm.Apply(mBoxToModel.Apply(p)) == worldb.Apply(box.Apply(p))
      ensures var hit := MeetingInWorld(box, mBoxExtents, worldb, worldm, volume.mesh);
              Accepted(l, hit) == Accepted(l, Hits()) && forall p: nat :: hit(p) == Hits()(p)
    {
      hide Matrix3.Rotation, Rigid.Apply, Parts, Undo, MeetingInWorld, Reaching;
      MeetingIsReaching(l, box, mBoxExtents, worldb, worldm, mModelToBox, mBoxToModel, volume.mesh);
    }
  }

  // The previous first contact is still one.
  ghost predicate FromCache(flags: Flags, touched: seq<nat>, hit: nat -> bool) {
    flags.temporalCoherence && flags.firstContact && touched != [] && hit(touched[0])
  }

  // What a query for the hit primitives of a list reports, given what the last one reported.
  ghost function Answer(l: seq<nat>, flags: Flags, touched: seq<nat>, hit: nat -> bool): seq<nat> {
    if FromCache(flags, touched, hit) then [touched[0]] else Report(flags.firstContact, Accepted(l, hit))
  }

  // Whatever was touched before, in first-contact mode one primitive that is hit is reported if and
  // only if there is one.
  lemma AnswerIsRight(l: seq<nat>, flags: Flags, touched: seq<nat>, hit: nat -> bool)
    requires forall p <- touched :: p in l
    ensures Answers(flags, l, hit, Answer(l, flags, touched, hit))
  {
    FirstAnswers(flags, l, hit);
    if FromCache(flags, touched, hit) {
      assert touched[0] in touched;
      KnownAnswers(flags, l, hit, touched[0]);
    }
  }

  lemma CachedPrims(m: Mesh, t: Tree, touched: seq<nat>)
    requires Covers(t, m) && forall p <- touched :: p in Prims(t)
    ensures m.Valid() && forall p <- touched :: p < |m.faces|
  {
  }

  lemma BoxInWorld(box: Rigid, worldb: World, worldB: Rigid, p: Point)
    requires worldB == if worldb.Set? then Then(box, worldb.matrix) else box
    ensures worldB.Apply(p) == worldb.Value().Apply(box.Apply(p))
  {
    if worldb.Set? {
      ThenApplies(box, worldb.matrix, p);
    } else {
      IdentityApplies(box.Apply(p));
    }
  }

  // ---- the bounds test is exact: some corner reaches each bound

  lemma ReachedOnColumn(m0: real, m1: real, m2: real, c: Point, e: Point, d: Point)
    requires Abs(d.x) <= e.x && Abs(d.y) <= e.y && Abs(d.z) <= e.z
    ensures -ColumnReach(m0, m1, m2, e) <= m0 * d.x + m1 * d.y + m2 * d.z <= ColumnReach(m0, m1, m2, e)
  {
    hide AbsTimes;
    TermReach(m0, d.x, e.x);
    TermReach(m1, d.y, e.y);
    TermReach(m2, d.z, e.z);
  }

  lemma TermReach(m: real, d: real, e: real)
    requires Abs(d) <= e
    ensures -AbsTimes(m, e) <= m * d <= AbsTimes(m, e)
  {
    if m >= 0.0 {
      ProductMonotone(d, e, m);
      ProductMonotone(-e, d, m);
    } else {
      ProductMonotone(d, e, -m);
      ProductMonotone(-e, d, -m);
    }
  }

  function Toward(m: real, e: real): real { if m >= 0.0 then e else -e }

  lemma TowardReaches(m: real, e: real)
    requires e >= 0.0
    ensures m * Toward(m, e) == AbsTimes(m, e) && m * -Toward(m, e) == -AbsTimes(m, e) && Abs(Toward(m, e)) == e
  {
    if m >= 0.0 {
      ProductNonNegative(m, e);
    } else {
      ProductNonNegative(-m, e);
    }
  }

  // A column's extreme values over a box.
  lemma ColumnExtremes(m0: real, m1: real, m2: real, e: Point) returns (d: Point)
    requires e.x >= 0.0 && e.y >= 0.0 && e.z >= 0.0
    ensures Abs(d.x) <= e.x && Abs(d.y) <= e.y && Abs(d.z) <= e.z
    ensures m0 * d.x + m1 * d.y + m2 * d.z == ColumnReach(m0, m1, m2, e)
    ensures m0 * -d.x + m1 * -d.y + m2 * -d.z == -ColumnReach(m0, m1, m2, e)
  {
    d := Point(Toward(m0, e.x), Toward(m1, e.y), Toward(m2, e.z));
    TowardReaches(m0, e.x);
    TowardReaches(m1, e.y);
    TowardReaches(m2, e.z);
    hide Toward, AbsTimes;
  }

  predicate ColumnInside(m0: real, m1: real, m2: real, t: real, c: Point, e: Point, bound: real) {
    var nc := Column(m0, m1, m2, c);
    bound - t >= nc + ColumnReach(m0, m1, m2, e) && -bound - t <= nc - ColumnReach(m0, m1, m2, e)
  }

  ghost predicate ColumnHolds(m0: real, m1: real, m2: real, t: real, c: Point, e: Point, bound: real) {
    forall p: Point :: InBox(p, Box(c, e)) ==> -bound <= t + Column(m0, m1, m2, p) <= bound
  }

  lemma InBoxIsOffset(p: Point, c: Point, e: Point)
    ensures InBox(p, Box(c, e)) <==>
            Abs(p.Minus(c).x) <= e.x && Abs(p.Minus(c).y) <= e.y && Abs(p.Minus(c).z) <= e.z
  {
  }

  lemma ColumnOfOffset(m0: real, m1: real, m2: real, p: Point, c: Point)
    ensures Column(m0, m1, m2, p) == Column(m0, m1, m2, c) + (m0 * p.Minus(c).x + m1 * p.Minus(c).y + m2 * p.Minus(c).z)
  {
  }

  lemma ColumnExact(m0: real, m1: real, m2: real, t: real, c: Point, e: Point, bound: real)
    requires e.x >= 0.0 && e.y >= 0.0 && e.z >= 0.0
    ensures ColumnInside(m0, m1, m2, t, c, e, bound) <==> ColumnHolds(m0, m1, m2, t, c, e, bound)
  {
    hide InBox, Abs, ColumnReach, Column;
    if ColumnInside(m0, m1, m2, t, c, e, bound) {
      forall p: Point | InBox(p, Box(c, e)) ensures -bound <= t + Column(m0, m1, m2, p) <= bound {
        InBoxIsOffset(p, c, e);
        ReachedOnColumn(m0, m1, m2, c, e, p.Minus(c));
        ColumnOfOffset(m0, m1, m2, p, c);
      }
    }
    if ColumnHolds(m0, m1, m2, t, c, e, bound) {
      var d := ColumnExtremes(m0, m1, m2, e);
      var high, low := c.Plus(d), c.Minus(d);
      assert high.Minus(c) == d && low.Minus(c) == Point(-d.x, -d.y, -d.z);
      InBoxIsOffset(high, c, e);
      InBoxIsOffset(low, c, e);
      AbsOfNegative(d.x);
      AbsOfNegative(d.y);
      AbsOfNegative(d.z);
      ColumnOfOffset(m0, m1, m2, high, c);
      ColumnOfOffset(m0, m1, m2, low, c);
      assert InBox(high, Box(c, e)) && InBox(low, Box(c, e));
    }
  }

  lemma AbsOfNegative(r: real)
    ensures Abs(-r) == Abs(r)
  {
  }

  lemma ContainsByColumns(r: Rigid, bc: Point, be: Point, e: Point)
    requires be.x >= 0.0 && be.y >= 0.0 && be.z >= 0.0
    ensures (forall p: Point :: InBox(p, Box(bc, be)) ==> InExtents(r.Apply(p), e)) <==>
            && ColumnInside(r.rot.r0.x, r.rot.r1.x, r.rot.r2.x, r.trans.x, bc, be, e.x)
            && ColumnInside(r.rot.r0.y, r.rot.r1.y, r.rot.r2.y, r.trans.y, bc, be, e.y)
            && ColumnInside(r.rot.r0.z, r.rot.r1.z, r.rot.r2.z, r.trans.z, bc, be, e.z)
  {
    hide ColumnInside, InBox, Column, InExtents, Rigid.Apply;
    ColumnExact(r.rot.r0.x, r.rot.r1.x, r.rot.r2.x, r.trans.x, bc, be, e.x);
    ColumnExact(r.rot.r0.y, r.rot.r1.y, r.rot.r2.y, r.trans.y, bc, be, e.y);
    ColumnExact(r.rot.r0.z, r.rot.r1.z, r.rot.r2.z, r.trans.z, bc, be, e.z);
    forall p: Point {
      InExtentsByColumns(r, p, e);
    }
  }

  lemma InExtentsByColumns(r: Rigid, p: Point, e: Point)
    ensures InExtents(r.Apply(p), e) <==>
            && -e.x <= r.trans.x + Column(r.rot.r0.x, r.rot.r1.x, r.rot.r2.x, p) <= e.x
            && -e.y <= r.trans.y + Column(r.rot.r0.y, r.rot.r1.y, r.rot.r2.y, p) <= e.y
            && -e.z <= r.trans.z + Column(r.rot.r0.z, r.rot.r1.z, r.rot.r2.z, p) <= e.z
  {
    ColumnsOf(r.rot, p);
    hide Matrix3.Apply, Column;
  }

  lemma ColumnsOf(m: Matrix3, p: Point)
    ensures m.Apply(p).x == Column(m.r0.x, m.r1.x, m.r2.x, p)
    ensures m.Apply(p).y == Column(m.r0.y, m.r1.y, m.r2.y, p)
    ensures m.Apply(p).z == Column(m.r0.z, m.r1.z, m.r2.z, p)
  {
  }

  // The fast form and the general form, with the oriented box at its own origin, always agree.
  method FormsAgree(q: ObbQuery, extents: Point, center: Point) returns (fast: bool, general: bool)
    requires q.Precomputed()
    modifies q.volume`mNbVolumeBVTests
    ensures fast == general
  {
    hide AxesMeet, Rigid.Apply, Matrix3.Rotation;
    fast := q.BoxBoxOverlap(extents, center);
    general := BoxBoxTest.BoxBoxOverlap(extents, center, q.mBoxExtents, ORIGIN, q.mBoxToModel, q.mAR,
                                        q.mFullBoxBoxTest || q.volume.mNbVolumeBVTests == 1);
  }

  // A node whose box shares a point with the oriented box is never skipped.
  lemma TouchingNodesAreKept(q: ObbQuery, b: Box, full: bool)
    requires q.Precomputed() && ShareAPoint(b, Box(ORIGIN, q.mBoxExtents), q.mBoxToModel)
    ensures AxesMeet(q.mBoxToModel.Apply(ORIGIN).Minus(b.center), q.mBoxToModel.rot, b.extents, q.mBoxExtents, full)
  {
    hide AxesMeet, Rigid.Apply, Matrix3.Rotation;
    NeverSeparatesTouching(b, Box(ORIGIN, q.mBoxExtents), q.mBoxToModel, full);
  }
}
