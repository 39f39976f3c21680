// On which meshes a model answers queries with a sphere as a linear scan would, in each layout.
module SphereBuilt {
  import opened Geometry
  import opened SphereTriangle
  import opened BoxTree
  import opened TreeBounds
  import opened TreeShapes
  import opened SphereScan

  function Collapsed(x: Point): Triangle { Triangle(x, x, x) }

  // All triangles of the list are one and the same point.
  predicate OnePoint(m: Mesh, l: seq<nat>)
    requires m.Valid()
  {
    && l != [] && l[0] < |m.faces|
    && forall p <- l :: p < |m.faces| && m.Tri(p) == Collapsed(m.Tri(l[0]).v0)
  }

  // Some box kept below t is only for triangles that are the same point, p among them.
  predicate Gathered(t: Tree, m: Mesh, boxed: bool, p: nat)
    requires m.Valid()
    decreases t
  {
    && p in Prims(t)
    && (((t.Node? || boxed) && OnePoint(m, Prims(t)))
        || (t.Node? && (Gathered(t.pos, m, boxed, p) || Gathered(t.neg, m, boxed, p))))
  }

  // Every triangle below t has area or is gathered.
  predicate Answered(t: Tree, m: Mesh, boxed: bool)
    requires m.Valid()
  {
    forall p <- Prims(t) :: Solid(m, p) || Gathered(t, m, boxed, p)
  }

  ghost predicate EachOnce(l: seq<nat>) { forall p: nat :: multiset(l)[p] <= 1 }

  // ---- tight boxes

  lemma FlatAxis(b: Box, m: Mesh, l: seq<nat>, axis: nat, x: Point)
    requires Bounds(b, m, l) && axis < 3 && forall p <- l :: m.Tri(p) == Collapsed(x)
    ensures Component(b.extents, axis) == 0.0
  {
    hide Encloses, Component;
    assert Reaches(m, l, axis, Low(b, axis)) && Reaches(m, l, axis, High(b, axis));
    var p: nat, k: nat :| p in l && k < 3 && Component(TreeBounds.Corner(m.Tri(p), k), axis) == Low(b, axis);
    var q: nat, j: nat :| q in l && j < 3 && Component(TreeBounds.Corner(m.Tri(q), j), axis) == High(b, axis);
    assert Low(b, axis) == High(b, axis);
  }

  // A tight box is a point just when all its triangles are that point.
  lemma PointBox(b: Box, m: Mesh, l: seq<nat>)
    requires Bounds(b, m, l) && l != []
    ensures IsPoint(b) <==> OnePoint(m, l)
  {
    if IsPoint(b) {
      forall p <- l ensures p < |m.faces| && m.Tri(p) == Collapsed(b.center) {
        InPoint(b, m.Tri(p));
      }
      assert l[0] in l;
    } else if OnePoint(m, l) {
      FlatAxis(b, m, l, 0, m.Tri(l[0]).v0);
      FlatAxis(b, m, l, 1, m.Tri(l[0]).v0);
      FlatAxis(b, m, l, 2, m.Tri(l[0]).v0);
    }
  }

  lemma InPoint(b: Box, t: Triangle)
    requires IsPoint(b) && Encloses(b, t)
    ensures t == Collapsed(b.center)
  {
  }

  // ---- the exact conditions

  lemma OnceInParts(t: Tree)
    requires t.Node? && EachOnce(Prims(t))
    ensures EachOnce(Prims(t.pos)) && EachOnce(Prims(t.neg))
    ensures forall p: nat :: !(p in Prims(t.pos) && p in Prims(t.neg))
  {
    hide Prims;
    forall p: nat
      ensures multiset(Prims(t.pos))[p] <= 1 && multiset(Prims(t.neg))[p] <= 1
      ensures !(p in Prims(t.pos) && p in Prims(t.neg))
    {
      NodePrims(t);
      BothCounts(Prims(t.pos), Prims(t.neg), p);
      assert p in Prims(t.pos) <==> multiset(Prims(t.pos))[p] > 0;
      assert p in Prims(t.neg) <==> multiset(Prims(t.neg))[p] > 0;
    }
  }

  lemma NodePrims(t: Tree)
    requires t.Node?
    ensures Prims(t) == Prims(t.pos) + Prims(t.neg)
  {
  }

  lemma AnsweredInParts(t: Tree, m: Mesh, boxed: bool)
    requires m.Valid() && t.Node? && EachOnce(Prims(t)) && !OnePoint(m, Prims(t))
    ensures Answered(t, m, boxed) <==> Answered(t.pos, m, boxed) && Answered(t.neg, m, boxed)
  {
    OnceInParts(t);
    NodePrims(t);
    hide Prims, OnePoint, EachOnce, Degenerate;
    forall p: nat
      ensures p in Prims(t.pos) ==> Gathered(t, m, boxed, p) == Gathered(t.pos, m, boxed, p)
      ensures p in Prims(t.neg) ==> Gathered(t, m, boxed, p) == Gathered(t.neg, m, boxed, p)
    {
      GatheredBelow(t, m, boxed, p);
    }
  }

  lemma GatheredBelow(t: Tree, m: Mesh, boxed: bool, p: nat)
    requires m.Valid() && t.Node? && !OnePoint(m, Prims(t)) && Prims(t) == Prims(t.pos) + Prims(t.neg)
    ensures Gathered(t, m, boxed, p) <==> Gathered(t.pos, m, boxed, p) || Gathered(t.neg, m, boxed, p)
    ensures Gathered(t.pos, m, boxed, p) ==> p in Prims(t.pos)
    ensures Gathered(t.neg, m, boxed, p) ==> p in Prims(t.neg)
  {
    hide Prims, OnePoint;
  }

  lemma AnsweredAtOnce(t: Tree, m: Mesh, boxed: bool)
    requires m.Valid() && (t.Leaf? ==> Prims(t) == [t.prim])
    requires t.Leaf? || OnePoint(m, Prims(t))
    ensures Answered(t, m, boxed) <==>
            ((t.Node? || boxed) && OnePoint(m, Prims(t))) || (t.Leaf? && Solid(m, t.prim))
  {
    hide Prims, OnePoint, Degenerate;
  }

  lemma {:induction false} SureWhenAnswered(t: Tree, m: Mesh, boxed: bool)
    requires Tight(t, m) && EachOnce(Prims(t))
    ensures Sure(t, m, boxed) <==> Answered(t, m, boxed)
    decreases t
  {
    PointBox(t.box, m, Prims(t));
    hide Bounds, OnePoint, IsPoint, EachOnce, Degenerate, Gathered;
    if t.Leaf? || OnePoint(m, Prims(t)) {
      AnsweredAtOnce(t, m, boxed);
    } else {
      OnceInParts(t);
      AnsweredInParts(t, m, boxed);
      SureWhenAnswered(t.pos, m, boxed);
      SureWhenAnswered(t.neg, m, boxed);
    }
  }

  // Queries of a tree with tight boxes agree with the scan for touching triangles for every sphere if
  // and only if each triangle has area or is gathered.
  lemma RightExactlyWhenAnswered(t: Tree, m: Mesh, boxed: bool)
    requires Tight(t, m) && EachOnce(Prims(t))
    ensures RightOn(t, m, boxed) <==> Answered(t, m, boxed)
  {
    hide Sure, RightOn, Answered, EachOnce;
    SureWhenAnswered(t, m, boxed);
    TightCovers(t, m);
    RightExactlyWhenSure(t, m, boxed);
  }

  // Every triangle of the mesh is at a leaf, and at one only.
  ghost predicate Indexes(t: Tree, m: Mesh) {
    forall p: nat :: multiset(Prims(t))[p] == if p < |m.faces| then 1 else 0
  }

  lemma IndexedLeaves(t: Tree, m: Mesh)
    requires Indexes(t, m)
    ensures EachOnce(Prims(t)) && forall p: nat :: p in Prims(t) <==> p < |m.faces|
  {
    forall p: nat ensures p in Prims(t) <==> p < |m.faces| {
      assert p in Prims(t) <==> multiset(Prims(t))[p] > 0;
    }
  }

  lemma {:induction false} GatheredWithLeaves(t: Tree, m: Mesh, p: nat)
    requires m.Valid() && p in Prims(t)
    ensures Gathered(t, m, true, p) <==> OnePoint(m, [p])
    decreases t
  {
    if OnePoint(m, Prims(t)) {
      assert m.Tri(p) == Collapsed(m.Tri(Prims(t)[0]).v0);
      assert OnePoint(m, [p]);
    }
    hide OnePoint;
    if t.Node? {
      if p in Prims(t.pos) {
        GatheredWithLeaves(t.pos, m, p);
      }
      if p in Prims(t.neg) {
        GatheredWithLeaves(t.neg, m, p);
      }
    } else {
      assert Prims(t) == [p];
    }
  }

  // A model with leaf nodes is right on exactly the meshes whose degenerate triangles are points.
  lemma RightWithLeaves(t: Tree, m: Mesh)
    requires Tight(t, m) && Indexes(t, m)
    ensures RightOn(t, m, true) <==> forall p: nat :: p < |m.faces| ==> Solid(m, p) || OnePoint(m, [p])
  {
    hide RightOn, Indexes, OnePoint, Degenerate;
    IndexedLeaves(t, m);
    RightExactlyWhenAnswered(t, m, true);
    forall p: nat | p < |m.faces| ensures Gathered(t, m, true, p) <==> OnePoint(m, [p]) {
      GatheredWithLeaves(t, m, p);
    }
  }

  // No two triangles of the mesh are the same point.
  ghost predicate PointsApart(m: Mesh)
    requires m.Valid()
  {
    forall p: nat, q: nat | p < q < |m.faces| :: !OnePoint(m, [p, q])
  }

  lemma {:induction false} NothingGathered(t: Tree, m: Mesh, p: nat)
    requires Tight(t, m) && EachOnce(Prims(t)) && PointsApart(m)
    ensures !Gathered(t, m, false, p)
    decreases t
  {
    if t.Node? {
      OnceInParts(t);
      NothingGathered(t.pos, m, p);
      NothingGathered(t.neg, m, p);
      NodePrims(t);
      if OnePoint(m, Prims(t)) {
        var a, b := Prims(t.pos)[0], Prims(t.neg)[0];
        assert a in Prims(t.pos) && b in Prims(t.neg);
        assert a in Prims(t) && b in Prims(t);
        assert OnePoint(m, [a, b]) && OnePoint(m, [b, a]);
        assert false;
      }
    }
  }

  // A model without leaf nodes is right on exactly the meshes without degenerate triangles, apart
  // from meshes in which several triangles are the same point.
  lemma RightWithoutLeaves(t: Tree, m: Mesh)
    requires Tight(t, m) && Indexes(t, m) && PointsApart(m)
    ensures RightOn(t, m, false) <==> AllSolid(m)
  {
    hide RightOn, Indexes, Degenerate, PointsApart;
    IndexedLeaves(t, m);
    RightExactlyWhenAnswered(t, m, false);
    forall p: nat ensures !Gathered(t, m, false, p) {
      NothingGathered(t, m, p);
    }
  }

  // Whenever the layout without leaf nodes is right the other one is.
  lemma LeavesOnlyHelp(t: Tree, m: Mesh)
    requires Tight(t, m) && Indexes(t, m) && RightOn(t, m, false)
    ensures RightOn(t, m, true)
  {
    hide RightOn, Indexes, Degenerate, OnePoint, EachOnce;
    IndexedLeaves(t, m);
    RightExactlyWhenAnswered(t, m, false);
    RightExactlyWhenAnswered(t, m, true);
    forall p <- Prims(t) ensures Gathered(t, m, false, p) ==> Gathered(t, m, true, p) {
      if Gathered(t, m, false, p) {
        GatheredAlso(t, m, p);
      }
    }
  }

  lemma {:induction false} GatheredAlso(t: Tree, m: Mesh, p: nat)
    requires m.Valid() && Gathered(t, m, false, p)
    ensures Gathered(t, m, true, p)
    decreases t
  {
    hide OnePoint;
    if t.Node? && Gathered(t.pos, m, false, p) {
      GatheredAlso(t.pos, m, p);
    } else if t.Node? && Gathered(t.neg, m, false, p) {
      GatheredAlso(t.neg, m, p);
    }
  }
}
