// When the prune tests of a query between two trees lose nothing that its leaf test accepts.
module PairPruning {
  import opened Geometry
  import opened RigidTransforms
  import opened WorldTransforms
  import OrientedBoxes
  import TriangleBox
  import opened BoxTree
  import opened PairScan

  // ---- the leaf test

  type TriTest = (Triangle, Triangle) -> bool

  // The leaf test's answer for a pair, in the first object's space.
  function Accepts(test: TriTest, m0: Mesh, m1: Mesh, from1to0: Rigid): PairTest
    requires m0.Valid() && m1.Valid()
  {
    (i: nat, j: nat) => i < |m0.faces| && j < |m1.faces| && test(m0.Tri(i), Moved(m1.Tri(j), from1to0))
  }

  // The two other forms in which the collider asks for a pair give the same answer.
  ghost predicate FormsAgree(test: TriTest, m0: Mesh, m1: Mesh, from0to1: Rigid, from1to0: Rigid)
    requires m0.Valid() && m1.Valid()
  {
    forall i: nat, j: nat | i < |m0.faces| && j < |m1.faces| ::
      && test(Moved(m0.Tri(i), from0to1), m1.Tri(j)) == Accepts(test, m0, m1, from1to0)(i, j)
      && test(Moved(m1.Tri(j), from1to0), m0.Tri(i)) == Accepts(test, m0, m1, from1to0)(i, j)
  }

  ghost predicate Inverses(from0to1: Rigid, from1to0: Rigid) {
    && from0to1.rot.Rotation() && from1to0.rot.Rotation()
    && forall p: Point :: from1to0.Apply(from0to1.Apply(p)) == p && from0to1.Apply(from1to0.Apply(p)) == p
  }

  // A test that ignores the order and the common placement of its triangles.
  ghost predicate Invariant(test: TriTest) {
    && (forall t: Triangle, s: Triangle :: test(t, s) == test(s, t))
    && (forall t: Triangle, s: Triangle, r: Rigid | r.rot.Rotation() :: test(Moved(t, r), Moved(s, r)) == test(t, s))
  }

  lemma InvariantFormsAgree(test: TriTest, m0: Mesh, m1: Mesh, from0to1: Rigid, from1to0: Rigid)
    requires m0.Valid() && m1.Valid() && Invariant(test) && Inverses(from0to1, from1to0)
    ensures FormsAgree(test, m0, m1, from0to1, from1to0)
  {
    hide Rigid.Apply, Matrix3.Rotation;
    forall i: nat, j: nat | i < |m0.faces| && j < |m1.faces|
      ensures test(Moved(m0.Tri(i), from0to1), m1.Tri(j)) == Accepts(test, m0, m1, from1to0)(i, j)
      ensures test(Moved(m1.Tri(j), from1to0), m0.Tri(i)) == Accepts(test, m0, m1, from1to0)(i, j)
    {
      var t, s := m0.Tri(i), m1.Tri(j);
      assert Moved(Moved(s, from1to0), from0to1) == s;
      assert test(Moved(t, from0to1), Moved(Moved(s, from1to0), from0to1)) == test(t, Moved(s, from1to0));
    }
  }

  // ---- the exact test

  ghost predicate Meet(t: Triangle, s: Triangle) { exists p: Point :: InTriangle(p, t) && InTriangle(p, s) }

  ghost function MeetTest(): TriTest { (t: Triangle, s: Triangle) => Meet(t, s) }

  lemma MovedInTriangle(p: Point, t: Triangle, r: Rigid)
    requires InTriangle(p, t)
    ensures InTriangle(r.Apply(p), Moved(t, r))
  {
    hide At, Rigid.Apply, Moved;
    var u: real, v: real :| Barycentric(u, v) && p == At(t, u, v);
    MovedPoint(t, r, u, v);
  }

  lemma MovedMeet(t: Triangle, s: Triangle, r: Rigid)
    requires Meet(t, s)
    ensures Meet(Moved(t, r), Moved(s, r))
  {
    hide InTriangle, Rigid.Apply, Moved;
    var p: Point :| InTriangle(p, t) && InTriangle(p, s);
    MovedInTriangle(p, t, r);
    MovedInTriangle(p, s, r);
  }

  lemma MovedBack(t: Triangle, r: Rigid)
    requires r.rot.Rotation()
    ensures Moved(Moved(t, r), Inverse(r)) == t
  {
    hide Rigid.Apply, Matrix3.Rotation, Inverse;
    InverseUndoes(r, t.v0);
    InverseUndoes(r, t.v1);
    InverseUndoes(r, t.v2);
  }

  // Whether two triangles share a point depends neither on their order nor on where they stand.
  lemma MeetIsInvariant()
    ensures Invariant(MeetTest())
  {
    hide Meet, Moved, Matrix3.Rotation;
    forall t: Triangle, s: Triangle ensures Meet(t, s) == Meet(s, t) {
      if Meet(t, s) {
        MeetTurns(t, s);
      } else if Meet(s, t) {
        MeetTurns(s, t);
      }
    }
    forall t: Triangle, s: Triangle, r: Rigid | r.rot.Rotation() ensures Meet(Moved(t, r), Moved(s, r)) == Meet(t, s) {
      if Meet(t, s) {
        MovedMeet(t, s, r);
      } else if Meet(Moved(t, r), Moved(s, r)) {
        MovedMeet(Moved(t, r), Moved(s, r), Inverse(r));
        MovedBack(t, r);
        MovedBack(s, r);
      }
    }
  }

  lemma MeetTurns(t: Triangle, s: Triangle)
    requires Meet(t, s)
    ensures Meet(s, t)
  {
    hide InTriangle;
    var p: Point :| InTriangle(p, t) && InTriangle(p, s);
    assert InTriangle(p, s) && InTriangle(p, t);
  }

  // A point of each that the world matrices take to one place.
  ghost predicate MeetInWorld(t: Triangle, s: Triangle, w0: Rigid, w1: Rigid) {
    exists p: Point, q: Point :: InTriangle(p, t) && InTriangle(q, s) && w0.Apply(p) == w1.Apply(q)
  }

  lemma MeetingMeetsInWorld(t: Triangle, s: Triangle, w0: Rigid, w1: Rigid, to1: Rigid, to0: Rigid)
    requires forall p: Point :: w1.Apply(to1.Apply(p)) == w0.Apply(p)
    requires forall p: Point :: to1.Apply(to0.Apply(p)) == p
    requires Meet(t, Moved(s, to0))
    ensures MeetInWorld(t, s, w0, w1)
  {
    hide InTriangle, Rigid.Apply;
    var p: Point :| InTriangle(p, t) && InTriangle(p, Moved(s, to0));
    assert Moved(Moved(s, to0), to1) == s;
    hide Moved;
    MovedInTriangle(p, Moved(s, to0), to1);
    assert w0.Apply(p) == w1.Apply(to1.Apply(p));
  }

  lemma WorldMeetingMeets(t: Triangle, s: Triangle, w0: Rigid, w1: Rigid, to0: Rigid)
    requires w0.rot.Rotation() && forall p: Point :: w0.Apply(to0.Apply(p)) == w1.Apply(p)
    requires MeetInWorld(t, s, w0, w1)
    ensures Meet(t, Moved(s, to0))
  {
    hide InTriangle, Rigid.Apply, Matrix3.Rotation, Moved;
    var p: Point, q: Point :| InTriangle(p, t) && InTriangle(q, s) && w0.Apply(p) == w1.Apply(q);
    MovedInTriangle(q, s, to0);
    SameInWorld(w0, to0.Apply(q), p);
  }

  // The exact test in the first object's space is about the triangles as they stand in the world.
  lemma MeetIsInWorld(t: Triangle, s: Triangle, world0: World, world1: World)
    requires world0.Value().rot.Rotation() && world1.Value().rot.Rotation()
    ensures Meet(t, Moved(s, Between(world1, world0))) <==> MeetInWorld(t, s, world0.Value(), world1.Value())
  {
    hide Meet, MeetInWorld, Rigid.Apply, Matrix3.Rotation, Between, World.Value, Moved;
    BetweenFacts(world0, world1);
    var to1, to0 := Between(world0, world1), Between(world1, world0);
    if Meet(t, Moved(s, to0)) {
      MeetingMeetsInWorld(t, s, world0.Value(), world1.Value(), to1, to0);
    } else if MeetInWorld(t, s, world0.Value(), world1.Value()) {
      WorldMeetingMeets(t, s, world0.Value(), world1.Value(), to0);
    }
  }

  // ---- what the prune tests must keep

  predicate Below(x: Tree, t: Tree) { x == t || (t.Node? && (Below(x, t.pos) || Below(x, t.neg))) }

  ghost predicate SomePair(l: seq<nat>, k: seq<nat>, accept: PairTest) { exists i <- l, j <- k :: accept(i, j) }

  // The box test keeps two nodes with an accepted pair below them.
  ghost predicate BoxesKept(x: Tree, y: Tree, accept: PairTest, from1to0: Rigid, full: bool) {
    SomePair(Prims(x), Prims(y), accept) ==>
      OrientedBoxes.AxesMeet(from1to0.Apply(y.box.center).Minus(x.box.center), from1to0.rot, x.box.extents,
                             y.box.extents, full)
  }

  // It keeps all such nodes of two trees, or all inner ones.
  ghost predicate AllBoxesKept(a: Tree, b: Tree, accept: PairTest, from1to0: Rigid, full: bool, inner: bool) {
    forall x: Tree, y: Tree | Below(x, a) && Below(y, b) && (inner ==> x.Node? && y.Node?) ::
      BoxesKept(x, y, accept, from1to0, full)
  }

  // The triangle-box test keeps the inner nodes that hold a partner of a leaf of the first tree.
  ghost predicate Leaf0Kept(i: nat, b: Tree, accept: PairTest, moved: Triangle, full: bool) {
    forall y: Tree | Below(y, b) && y.Node? && SomePair([i], Prims(y), accept) ::
           TriangleBox.Overlap(y.box, moved, full)
  }

  // The same for a leaf of the second tree.
  ghost predicate Leaf1Kept(a: Tree, j: nat, accept: PairTest, moved: Triangle, full: bool) {
    forall x: Tree | Below(x, a) && x.Node? && SomePair(Prims(x), [j], accept) ::
           TriangleBox.Overlap(x.box, moved, full)
  }

  lemma AllBoxesKeptBelow(a: Tree, b: Tree, x: Tree, y: Tree, accept: PairTest, from1to0: Rigid, full: bool,
                          inner: bool)
    requires AllBoxesKept(a, b, accept, from1to0, full, inner)
    requires x == a || (a.Node? && (x == a.pos || x == a.neg))
    requires y == b || (b.Node? && (y == b.pos || y == b.neg))
    ensures AllBoxesKept(x, y, accept, from1to0, full, inner)
  {
    hide BoxesKept;
    forall x': Tree, y': Tree | Below(x', x) && Below(y', y) && (inner ==> x'.Node? && y'.Node?)
      ensures BoxesKept(x', y', accept, from1to0, full)
    {
      assert Below(x', a) && Below(y', b);
    }
  }

  // ---- tests that accept only triangles with a common point are kept everywhere

  // A point of the one is a moved point of the other.
  lemma MeetingPoint(t: Triangle, s: Triangle, r: Rigid) returns (u: real, v: real, u': real, v': real)
    requires Meet(t, Moved(s, r))
    ensures Barycentric(u, v) && Barycentric(u', v') && At(t, u, v) == r.Apply(At(s, u', v'))
  {
    hide At, Barycentric, Rigid.Apply;
    var p: Point :| InTriangle(p, t) && InTriangle(p, Moved(s, r));
    u, v :| Barycentric(u, v) && p == At(t, u, v);
    u', v' :| Barycentric(u', v') && p == At(Moved(s, r), u', v');
    MovedPoint(s, r, u', v');
  }

  lemma MeetingBoxes(a: Box, b: Box, t: Triangle, s: Triangle, r: Rigid, full: bool)
    requires r.rot.Rotation() && Encloses(a, t) && Encloses(b, s) && Meet(t, Moved(s, r))
    ensures OrientedBoxes.AxesMeet(r.Apply(b.center).Minus(a.center), r.rot, a.extents, b.extents, full)
  {
    hide OrientedBoxes.AxesMeet, Matrix3.Rotation, At, Rigid.Apply, InBox, Encloses, Meet, Moved;
    var u, v, u', v' := MeetingPoint(t, s, r);
    EnclosedPoint(a, t, u, v);
    EnclosedPoint(b, s, u', v');
    OrientedBoxes.NeverSeparatesTouching(a, b, r, full);
  }

  // A triangle moved into the box's space shares the meeting point with it.
  lemma MeetingTriangleAndBox(b: Box, t: Triangle, s: Triangle, r: Rigid, back: Rigid, full: bool)
    requires Encloses(b, s) && Meet(t, Moved(s, r)) && (forall p: Point :: back.Apply(r.Apply(p)) == p)
    ensures TriangleBox.Overlap(b, Moved(t, back), full)
  {
    hide At, Rigid.Apply, InBox, Encloses, Meet, Moved, TriangleBox.Overlap;
    var u, v, u', v' := MeetingPoint(t, s, r);
    EnclosedPoint(b, s, u', v');
    MovedPoint(t, back, u, v);
    TriangleBox.NeverSeparatesTouching(b, Moved(t, back), u, v, full);
  }

  // The same with the other triangle moved and the box around the first.
  lemma MeetingBoxAndTriangle(b: Box, t: Triangle, s: Triangle, r: Rigid, full: bool)
    requires Encloses(b, t) && Meet(t, Moved(s, r))
    ensures TriangleBox.Overlap(b, Moved(s, r), full)
  {
    hide At, Rigid.Apply, InBox, Encloses, Meet, Moved, TriangleBox.Overlap;
    var u, v, u', v' := MeetingPoint(t, s, r);
    EnclosedPoint(b, t, u, v);
    MovedPoint(s, r, u', v');
    TriangleBox.NeverSeparatesTouching(b, Moved(s, r), u', v', full);
  }

  // Accepted pairs share a point.
  ghost predicate OnlyMeeting(test: TriTest, m0: Mesh, m1: Mesh, from1to0: Rigid)
    requires m0.Valid() && m1.Valid()
  {
    forall i: nat, j: nat | i < |m0.faces| && j < |m1.faces| && Accepts(test, m0, m1, from1to0)(i, j) ::
      Meet(m0.Tri(i), Moved(m1.Tri(j), from1to0))
  }

  lemma {:induction false} CoversBelow(x: Tree, t: Tree, m: Mesh)
    requires Covers(t, m) && Below(x, t)
    ensures Covers(x, m)
    decreases t
  {
    if x != t {
      if Below(x, t.pos) {
        CoversBelow(x, t.pos, m);
      } else {
        CoversBelow(x, t.neg, m);
      }
    }
  }

  lemma MeetingBoxesKept(x: Tree, y: Tree, test: TriTest, m0: Mesh, m1: Mesh, from1to0: Rigid, full: bool)
    requires Covers(x, m0) && Covers(y, m1) && from1to0.rot.Rotation() && OnlyMeeting(test, m0, m1, from1to0)
    ensures BoxesKept(x, y, Accepts(test, m0, m1, from1to0), from1to0, full)
  {
    hide OrientedBoxes.AxesMeet, Meet, Moved, Encloses, Rigid.Apply, Matrix3.Rotation;
    var accept := Accepts(test, m0, m1, from1to0);
    if SomePair(Prims(x), Prims(y), accept) {
      var i, j :| i in Prims(x) && j in Prims(y) && accept(i, j);
      MeetingBoxes(x.box, y.box, m0.Tri(i), m1.Tri(j), from1to0, full);
    }
  }

  lemma MeetingAllBoxesKept(a: Tree, b: Tree, test: TriTest, m0: Mesh, m1: Mesh, from1to0: Rigid, full: bool,
                            inner: bool)
    requires m0.Valid() && m1.Valid() && Covers(a, m0) && Covers(b, m1)
    requires from1to0.rot.Rotation() && OnlyMeeting(test, m0, m1, from1to0)
    ensures AllBoxesKept(a, b, Accepts(test, m0, m1, from1to0), from1to0, full, inner)
  {
    hide Covers, BoxesKept, OnlyMeeting, Matrix3.Rotation, Below;
    forall x: Tree, y: Tree | Below(x, a) && Below(y, b)
      ensures BoxesKept(x, y, Accepts(test, m0, m1, from1to0), from1to0, full)
    {
      CoversBelow(x, a, m0);
      CoversBelow(y, b, m1);
      MeetingBoxesKept(x, y, test, m0, m1, from1to0, full);
    }
  }

  lemma MeetingLeaf0Kept(i: nat, b: Tree, test: TriTest, m0: Mesh, m1: Mesh, from0to1: Rigid, from1to0: Rigid,
                         full: bool)
    requires m0.Valid() && i < |m0.faces| && Covers(b, m1) && Inverses(from0to1, from1to0)
    requires OnlyMeeting(test, m0, m1, from1to0)
    ensures Leaf0Kept(i, b, Accepts(test, m0, m1, from1to0), Moved(m0.Tri(i), from0to1), full)
  {
    hide TriangleBox.Overlap, Meet, Moved, Encloses, Rigid.Apply, Matrix3.Rotation, Below;
    var accept := Accepts(test, m0, m1, from1to0);
    forall y: Tree | Below(y, b) && SomePair([i], Prims(y), accept)
      ensures TriangleBox.Overlap(y.box, Moved(m0.Tri(i), from0to1), full)
    {
      CoversBelow(y, b, m1);
      var k, j :| k in [i] && j in Prims(y) && accept(k, j);
      MeetingTriangleAndBox(y.box, m0.Tri(i), m1.Tri(j), from1to0, from0to1, full);
    }
  }

  lemma MeetingLeaf1Kept(a: Tree, j: nat, test: TriTest, m0: Mesh, m1: Mesh, from1to0: Rigid, full: bool)
    requires m1.Valid() && j < |m1.faces| && Covers(a, m0) && OnlyMeeting(test, m0, m1, from1to0)
    ensures Leaf1Kept(a, j, Accepts(test, m0, m1, from1to0), Moved(m1.Tri(j), from1to0), full)
  {
    hide TriangleBox.Overlap, Meet, Moved, Encloses, Rigid.Apply, Matrix3.Rotation, Below;
    var accept := Accepts(test, m0, m1, from1to0);
    forall x: Tree | Below(x, a) && SomePair(Prims(x), [j], accept)
      ensures TriangleBox.Overlap(x.box, Moved(m1.Tri(j), from1to0), full)
    {
      CoversBelow(x, a, m0);
      var i, k :| i in Prims(x) && k in [j] && accept(i, k);
      MeetingBoxAndTriangle(x.box, m0.Tri(i), m1.Tri(j), from1to0, full);
    }
  }

  lemma PrimsInRange(t: Tree, m: Mesh)
    requires Covers(t, m)
    ensures forall i <- Prims(t) :: i < |m.faces|
  {
  }
}
