// Tight boxes around lists of triangles, and how they relate when the lists do.
module TreeBounds {
  import opened Geometry
  import opened BoxTree

  function Corner(t: Triangle, k: nat): Point
    requires k < 3
  {
    if k == 0 then t.v0 else if k == 1 then t.v1 else t.v2
  }

  // The bounds of a box along an axis.
  function Low(b: Box, axis: nat): real
    requires axis < 3
  {
    Component(b.center, axis) - Component(b.extents, axis)
  }

  function High(b: Box, axis: nat): real
    requires axis < 3
  {
    Component(b.center, axis) + Component(b.extents, axis)
  }

  ghost predicate ValidPrims(m: Mesh, l: seq<nat>) {
    m.Valid() && forall k :: 0 <= k < |l| ==> l[k] < |m.faces|
  }

  ghost predicate Finite(m: Mesh) {
    forall v <- m.verts :: -FLT_MAX <= v.x <= FLT_MAX && -FLT_MAX <= v.y <= FLT_MAX && -FLT_MAX <= v.z <= FLT_MAX
  }

  function Lesser(a: real, b: real): real { if b < a then b else a }

  function Greater(a: real, b: real): real { if b > a then b else a }

  function Lowest(t: Triangle, axis: nat): real
    requires axis < 3
  {
    Lesser(Lesser(Component(t.v0, axis), Component(t.v1, axis)), Component(t.v2, axis))
  }

  function Highest(t: Triangle, axis: nat): real
    requires axis < 3
  {
    Greater(Greater(Component(t.v0, axis), Component(t.v1, axis)), Component(t.v2, axis))
  }

  // The bounds after the triangles of a list, starting from the extreme floats.
  function LowAt(m: Mesh, l: seq<nat>, axis: nat): real
    requires ValidPrims(m, l) && axis < 3
    decreases |l|
  {
    if l == [] then FLT_MAX
    else Lesser(LowAt(m, l[..|l| - 1], axis), Lowest(m.Tri(l[|l| - 1]), axis))
  }

  function HighAt(m: Mesh, l: seq<nat>, axis: nat): real
    requires ValidPrims(m, l) && axis < 3
    decreases |l|
  {
    if l == [] then -FLT_MAX
    else Greater(HighAt(m, l[..|l| - 1], axis), Highest(m.Tri(l[|l| - 1]), axis))
  }

  // Some corner of a triangle of the list has this coordinate.
  ghost predicate Reaches(m: Mesh, l: seq<nat>, axis: nat, v: real)
    requires ValidPrims(m, l) && axis < 3
  {
    exists p: nat, k: nat :: p in l && k < 3 && Component(Corner(m.Tri(p), k), axis) == v
  }

  // The box encloses the triangles of the list, and no smaller one does.
  ghost predicate Bounds(b: Box, m: Mesh, l: seq<nat>) {
    && ValidPrims(m, l)
    && (forall p <- l :: Encloses(b, m.Tri(p)))
    && (forall axis: nat :: axis < 3 ==>
          && Reaches(m, l, axis, Low(b, axis))
          && Reaches(m, l, axis, High(b, axis)))
  }

  lemma {:induction false} LowBelow(m: Mesh, l: seq<nat>, axis: nat, p: nat)
    requires ValidPrims(m, l) && axis < 3 && p in l
    ensures LowAt(m, l, axis) <= Lowest(m.Tri(p), axis) && Highest(m.Tri(p), axis) <= HighAt(m, l, axis)
    decreases |l|
  {
    hide Lowest, Highest;
    var k :| 0 <= k < |l| && l[k] == p;
    if k < |l| - 1 {
      assert l[..|l| - 1][k] == p;
      LowBelow(m, l[..|l| - 1], axis, p);
    }
  }

  lemma CornerOfFinite(m: Mesh, p: nat, axis: nat)
    requires m.Valid() && p < |m.faces| && axis < 3 && Finite(m)
    ensures -FLT_MAX <= Highest(m.Tri(p), axis) && Lowest(m.Tri(p), axis) <= FLT_MAX
    ensures exists k: nat :: k < 3 && Component(Corner(m.Tri(p), k), axis) == Lowest(m.Tri(p), axis)
    ensures exists k: nat :: k < 3 && Component(Corner(m.Tri(p), k), axis) == Highest(m.Tri(p), axis)
  {
    var f := m.faces[p];
    assert f in m.faces;
    assert m.verts[f.r0] in m.verts && m.verts[f.r1] in m.verts && m.verts[f.r2] in m.verts;
    var t := m.Tri(p);
    assert Component(Corner(t, 0), axis) == Component(t.v0, axis);
    assert Component(Corner(t, 1), axis) == Component(t.v1, axis);
    assert Component(Corner(t, 2), axis) == Component(t.v2, axis);
  }

  lemma {:induction false} BoundsReached(m: Mesh, l: seq<nat>, axis: nat)
    requires ValidPrims(m, l) && axis < 3 && Finite(m) && l != []
    ensures Reaches(m, l, axis, LowAt(m, l, axis)) && Reaches(m, l, axis, HighAt(m, l, axis))
    decreases |l|
  {
    hide Lowest, Highest, Component, Corner, Finite;
    var p, rest := l[|l| - 1], l[..|l| - 1];
    assert p in l;
    CornerOfFinite(m, p, axis);
    var low: nat :| low < 3 && Component(Corner(m.Tri(p), low), axis) == Lowest(m.Tri(p), axis);
    var high: nat :| high < 3 && Component(Corner(m.Tri(p), high), axis) == Highest(m.Tri(p), axis);
    if rest != [] {
      BoundsReached(m, rest, axis);
    } else {
      assert LowAt(m, rest, axis) == FLT_MAX && HighAt(m, rest, axis) == -FLT_MAX;
    }
  }

  // The box computed from both bounds is tight.
  lemma BoxBounds(m: Mesh, l: seq<nat>, b: Box)
    requires ValidPrims(m, l) && Finite(m) && l != []
    requires forall axis: nat :: axis < 3 ==> Low(b, axis) == LowAt(m, l, axis) && High(b, axis) == HighAt(m, l, axis)
    ensures Bounds(b, m, l)
  {
    hide LowAt, HighAt, Low, High, Reaches, Encloses, Finite, Lowest, Highest;
    forall axis: nat | axis < 3 ensures Reaches(m, l, axis, Low(b, axis)) && Reaches(m, l, axis, High(b, axis)) {
      BoundsReached(m, l, axis);
    }
    forall p <- l ensures Encloses(b, m.Tri(p)) {
      forall axis: nat | axis < 3
        ensures Low(b, axis) <= Lowest(m.Tri(p), axis) && Highest(m.Tri(p), axis) <= High(b, axis)
      {
        LowBelow(m, l, axis, p);
      }
      EnclosedByExtremes(b, m.Tri(p));
    }
  }

  lemma EnclosedByExtremes(b: Box, t: Triangle)
    requires forall axis: nat :: axis < 3 ==>
               && Low(b, axis) <= Lowest(t, axis)
               && Highest(t, axis) <= High(b, axis)
    ensures Encloses(b, t)
  {
    assert Low(b, 0) <= Lowest(t, 0);
    assert Low(b, 1) <= Lowest(t, 1);
    assert Low(b, 2) <= Lowest(t, 2);
  }

  // Boxes only depend on which triangles they are for.
  lemma BoundsOfSameMembers(b: Box, m: Mesh, l: seq<nat>, k: seq<nat>)
    requires Bounds(b, m, l) && multiset(l) == multiset(k)
    ensures Bounds(b, m, k)
  {
    hide Encloses, Component, Corner;
    SameMembers(l, k);
    forall i | 0 <= i < |k| ensures k[i] < |m.faces| {
      assert k[i] in k;
    }
    forall axis: nat, v: real | axis < 3 && Reaches(m, l, axis, v) ensures Reaches(m, k, axis, v) {
      var p: nat, c: nat :| p in l && c < 3 && Component(Corner(m.Tri(p), c), axis) == v;
      assert p in k;
    }
  }

  lemma SameMembers(l: seq<nat>, k: seq<nat>)
    requires multiset(l) == multiset(k)
    ensures forall p: nat :: p in l <==> p in k
  {
    forall p: nat ensures p in l <==> p in k {
      assert p in l <==> p in multiset(l);
      assert p in k <==> p in multiset(k);
    }
  }

  ghost predicate ContainsBox(outer: Box, inner: Box) {
    forall axis: nat :: axis < 3 ==>
      && Low(outer, axis) <=
         Low(inner, axis)
      && High(inner, axis) <=
         High(outer, axis)
  }

  lemma EnclosedCorner(b: Box, t: Triangle, k: nat, axis: nat)
    requires Encloses(b, t) && k < 3 && axis < 3
    ensures Low(b, axis) <= Component(Corner(t, k), axis)
            <= High(b, axis)
  {
  }

  // Fewer triangles, a box no larger.
  lemma BoundsNest(outer: Box, inner: Box, m: Mesh, l: seq<nat>, k: seq<nat>)
    requires Bounds(outer, m, l) && Bounds(inner, m, k) && forall p <- k :: p in l
    ensures ContainsBox(outer, inner)
  {
    hide Encloses;
    forall axis: nat | axis < 3
      ensures Low(outer, axis) <=
              Low(inner, axis)
      ensures High(inner, axis) <=
              High(outer, axis)
    {
      var p: nat, c: nat :| p in k && c < 3 &&
        Component(Corner(m.Tri(p), c), axis) == Low(inner, axis);
      EnclosedCorner(outer, m.Tri(p), c, axis);
      var q: nat, d: nat :| q in k && d < 3 &&
        Component(Corner(m.Tri(q), d), axis) == High(inner, axis);
      EnclosedCorner(outer, m.Tri(q), d, axis);
    }
  }

  ghost predicate Extremes(m: Mesh, l: seq<nat>, min: Point, max: Point)
    requires ValidPrims(m, l)
  {
    && min == Point(LowAt(m, l, 0), LowAt(m, l, 1), LowAt(m, l, 2))
    && max == Point(HighAt(m, l, 0), HighAt(m, l, 1), HighAt(m, l, 2))
  }

  lemma ExtremesStart(m: Mesh, l: seq<nat>)
    requires ValidPrims(m, l)
    ensures Extremes(m, l[..0], Point(FLT_MAX, FLT_MAX, FLT_MAX), Point(-FLT_MAX, -FLT_MAX, -FLT_MAX))
  {
  }

  lemma ExtremesStep(m: Mesh, l: seq<nat>, i: nat, min: Point, max: Point)
    requires ValidPrims(m, l) && i < |l| && Extremes(m, l[..i], min, max)
    ensures var t := m.Tri(l[i]);
            Extremes(m, l[..i + 1], PointMin(PointMin(PointMin(min, t.v0), t.v1), t.v2),
                     PointMax(PointMax(PointMax(max, t.v0), t.v1), t.v2))
  {
    var k := l[..i + 1];
    assert k[..|k| - 1] == l[..i] && k[|k| - 1] == l[i];
  }

  lemma ExtremesBound(m: Mesh, l: seq<nat>, min: Point, max: Point)
    requires ValidPrims(m, l) && Finite(m) && l != [] && Extremes(m, l, min, max)
    ensures Bounds(Box(max.Plus(min).Times(0.5), max.Minus(min).Times(0.5)), m, l)
  {
    hide LowAt, HighAt;
    BoxBounds(m, l, Box(max.Plus(min).Times(0.5), max.Minus(min).Times(0.5)));
  }

  // ComputeGlobalBox: both bounds in one pass over the list.
  method ComputeGlobalBox(m: Mesh, primitives: seq<nat>) returns (ok: bool, box: Box)
    requires ValidPrims(m, primitives) && Finite(m)
    ensures ok == (primitives != [])
    ensures ok ==> Bounds(box, m, primitives)
  {
    box := Box(Point(0.0, 0.0, 0.0), Point(0.0, 0.0, 0.0));
    if primitives == [] {
      return false, box;
    }
    hide LowAt, HighAt, Bounds, PointMin, PointMax;
    ExtremesStart(m, primitives);
    var min := Point(FLT_MAX, FLT_MAX, FLT_MAX);
    var max := Point(-FLT_MAX, -FLT_MAX, -FLT_MAX);
    var i := 0;
    while i < |primitives|
      invariant 0 <= i <= |primitives|
      invariant Extremes(m, primitives[..i], min, max)
    {
      ExtremesStep(m, primitives, i, min, max);
      var t := m.Tri(primitives[i]);
      min := PointMin(PointMin(PointMin(min, t.v0), t.v1), t.v2);
      max := PointMax(PointMax(PointMax(max, t.v0), t.v1), t.v2);
      i := i + 1;
    }
    assert primitives[..i] == primitives;
    ok := true;
    box := Box(max.Plus(min).Times(0.5), max.Minus(min).Times(0.5));
    ExtremesBound(m, primitives, min, max);
  }

  function PointMin(p: Point, q: Point): Point { Point(Lesser(p.x, q.x), Lesser(p.y, q.y), Lesser(p.z, q.z)) }

  function PointMax(p: Point, q: Point): Point { Point(Greater(p.x, q.x), Greater(p.y, q.y), Greater(p.z, q.z)) }
}
