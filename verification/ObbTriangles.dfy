// Triangles against an oriented box: what its tests mean for the points of a triangle.
module ObbTriangles {
  import opened Geometry
  import opened RigidTransforms
  import opened WorldTransforms
  import opened BoxTree
  import OrientedBoxes
  import SeparatingAxes
  import TriangleBox
  import TriangleBoxExact

  const ORIGIN: Point := Point(0.0, 0.0, 0.0)

  // A point, in the space of the oriented box.
  predicate InExtents(p: Point, e: Point) {
    -e.x <= p.x <= e.x && -e.y <= p.y <= e.y && -e.z <= p.z <= e.z
  }

  // Some point of the triangle is in the box, whose space the transform leads to.
  ghost predicate Reaches(toBox: Rigid, e: Point, t: Triangle) {
    exists u: real, v: real :: Barycentric(u, v) && InExtents(toBox.Apply(At(t, u, v)), e)
  }

  ghost function Reaching(toBox: Rigid, e: Point, m: Mesh): nat -> bool
    requires m.Valid()
  {
    (p: nat) => p < |m.faces| && Reaches(toBox, e, m.Tri(p))
  }

  // The two objects, placed in the world, share a point.
  ghost predicate MeetInWorld(box: Rigid, e: Point, worldb: Rigid, worldm: Rigid, t: Triangle) {
    exists u: real, v: real, x: Point ::
      Barycentric(u, v) && InExtents(x, e) && worldm.Apply(At(t, u, v)) == worldb.Apply(box.Apply(x))
  }

  ghost function MeetingInWorld(box: Rigid, e: Point, worldb: Rigid, worldm: Rigid, m: Mesh): nat -> bool
    requires m.Valid()
  {
    (p: nat) => p < |m.faces| && MeetInWorld(box, e, worldb, worldm, m.Tri(p))
  }

  ghost predicate Undo(toBox: Rigid, toModel: Rigid) {
    forall p: Point :: toBox.Apply(toModel.Apply(p)) == p && toModel.Apply(toBox.Apply(p)) == p
  }

  lemma AroundOrigin(p: Point, e: Point)
    ensures InBox(p, Box(ORIGIN, e)) == InExtents(p, e)
  {
  }

  // The triangle test in the space of the box is exact.
  lemma TestIsReach(toBox: Rigid, e: Point, t: Triangle)
    requires SeparatingAxes.NonNegative(e)
    ensures TriangleBox.Overlap(Box(ORIGIN, e), Moved(t, toBox), true) == Reaches(toBox, e, t)
  {
    hide TriangleBox.Overlap, At, InBox, InExtents, Barycentric, Moved, Rigid.Apply;
    forall u: real, v: real
      ensures InBox(At(Moved(t, toBox), u, v), Box(ORIGIN, e)) == InExtents(toBox.Apply(At(t, u, v)), e)
    {
      MovedPoint(t, toBox, u, v);
      AroundOrigin(toBox.Apply(At(t, u, v)), e);
    }
    TriangleBoxExact.OverlapIsTouch(Box(ORIGIN, e), Moved(t, toBox));
  }

  lemma WorldIsModel(box: Rigid, e: Point, worldb: Rigid, worldm: Rigid, toBox: Rigid, toModel: Rigid, t: Triangle)
    requires worldm.rot.Rotation() && Undo(toBox, toModel)
    requires forall p: Point :: worldm.Apply(toModel.Apply(p)) == worldb.Apply(box.Apply(p))
    ensures MeetInWorld(box, e, worldb, worldm, t) == Reaches(toBox, e, t)
  {
    hide At, InExtents, Barycentric, Rigid.Apply, Matrix3.Rotation;
    if MeetInWorld(box, e, worldb, worldm, t) {
      var u: real, v: real, x: Point :|
        Barycentric(u, v) && InExtents(x, e) && worldm.Apply(At(t, u, v)) == worldb.Apply(box.Apply(x));
      SameInWorld(worldm, At(t, u, v), toModel.Apply(x));
      assert toBox.Apply(At(t, u, v)) == x;
    }
    if Reaches(toBox, e, t) {
      var u: real, v: real :| Barycentric(u, v) && InExtents(toBox.Apply(At(t, u, v)), e);
      var x := toBox.Apply(At(t, u, v));
      assert worldm.Apply(At(t, u, v)) == worldm.Apply(toModel.Apply(x));
    }
  }

  lemma MeetingIsReaching(l: seq<nat>, box: Rigid, e: Point, worldb: Rigid, worldm: Rigid, toBox: Rigid,
                          toModel: Rigid, m: Mesh)
    requires m.Valid() && worldm.rot.Rotation() && Undo(toBox, toModel)
    requires forall p: Point :: worldm.Apply(toModel.Apply(p)) == worldb.Apply(box.Apply(p))
    ensures forall p: nat :: MeetingInWorld(box, e, worldb, worldm, m)(p) == Reaching(toBox, e, m)(p)
    ensures Accepted(l, MeetingInWorld(box, e, worldb, worldm, m)) == Accepted(l, Reaching(toBox, e, m))
  {
    hide MeetInWorld, Reaches, Undo, Rigid.Apply, Matrix3.Rotation;
    forall p: nat | p < |m.faces| ensures MeetInWorld(box, e, worldb, worldm, m.Tri(p)) == Reaches(toBox, e, m.Tri(p)) {
      WorldIsModel(box, e, worldb, worldm, toBox, toModel, m.Tri(p));
    }
    AcceptedSame(l, MeetingInWorld(box, e, worldb, worldm, m), Reaching(toBox, e, m));
  }

  // ---- what the tests of a node mean for the triangles below it

  // A triangle that reaches the box makes its node's box share a point with it.
  lemma ReachingShares(toBox: Rigid, toModel: Rigid, e: Point, b: Box, t: Triangle)
    requires Encloses(b, t) && Undo(toBox, toModel) && Reaches(toBox, e, t)
    ensures OrientedBoxes.ShareAPoint(b, Box(ORIGIN, e), toModel)
  {
    hide At, InExtents, Barycentric, Rigid.Apply, InBox, Encloses;
    var u: real, v: real :| Barycentric(u, v) && InExtents(toBox.Apply(At(t, u, v)), e);
    EnclosedPoint(b, t, u, v);
    AroundOrigin(toBox.Apply(At(t, u, v)), e);
    assert toModel.Apply(toBox.Apply(At(t, u, v))) == At(t, u, v);
  }

  lemma Missed(toBox: Rigid, toModel: Rigid, e: Point, m: Mesh, t: Tree)
    requires Covers(t, m) && Undo(toBox, toModel) && !OrientedBoxes.ShareAPoint(t.box, Box(ORIGIN, e), toModel)
    ensures Accepted(Prims(t), Reaching(toBox, e, m)) == []
  {
    hide Encloses, Undo, OrientedBoxes.ShareAPoint, Reaches;
    forall p <- Prims(t) ensures !Reaching(toBox, e, m)(p) {
      if Reaches(toBox, e, m.Tri(p)) {
        ReachingShares(toBox, toModel, e, t.box, m.Tri(p));
      }
    }
    AcceptedNone(Prims(t), Reaching(toBox, e, m));
  }

  lemma CornerReaches(toBox: Rigid, e: Point, b: Box, t: Triangle)
    requires Encloses(b, t) && forall p: Point :: InBox(p, b) ==> InExtents(toBox.Apply(p), e)
    ensures Reaches(toBox, e, t)
  {
    hide InExtents, InBox, Rigid.Apply;
    assert At(t, 0.0, 0.0) == t.v0;
  }

  lemma AllInside(toBox: Rigid, e: Point, m: Mesh, t: Tree)
    requires Covers(t, m) && forall p: Point :: InBox(p, t.box) ==> InExtents(toBox.Apply(p), e)
    ensures Accepted(Prims(t), Reaching(toBox, e, m)) == Prims(t)
  {
    hide Encloses, Reaches, InExtents, InBox, Rigid.Apply;
    forall p <- Prims(t) ensures Reaching(toBox, e, m)(p) {
      CornerReaches(toBox, e, t.box, m.Tri(p));
    }
    AcceptedAll(Prims(t), Reaching(toBox, e, m));
  }

  // A box around a triangle has no negative extent.
  lemma BoxHasExtent(t: Tree, m: Mesh)
    requires Covers(t, m)
    ensures SeparatingAxes.NonNegative(t.box.extents)
  {
    var p := Prims(t)[0];
    assert p in Prims(t);
  }
}
