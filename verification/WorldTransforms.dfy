// Rigid transforms one after the other, and going from one object's space to another's.
module WorldTransforms {
  import opened Geometry
  import opened RigidTransforms

  const IDENTITY: Rigid := Rigid(Matrix3(Point(1.0, 0.0, 0.0), Point(0.0, 1.0, 0.0), Point(0.0, 0.0, 1.0)),
                                 Point(0.0, 0.0, 0.0))

  // The matrix product: first a, then b.
  function Then(a: Rigid, b: Rigid): Rigid {
    Rigid(Matrix3(b.rot.Apply(a.rot.r0), b.rot.Apply(a.rot.r1), b.rot.Apply(a.rot.r2)), b.Apply(a.trans))
  }

  lemma ThenApplies(a: Rigid, b: Rigid, p: Point)
    ensures Then(a, b).Apply(p) == b.Apply(a.Apply(p))
  {
    Linear(b.rot, a.trans, a.rot.Apply(p));
    Combined(b.rot, a.rot, p);
    hide Matrix3.Apply;
  }

  lemma ScaledSum(a: real, b: real, c: real, x: real, y: real, z: real, s: real,
                  xs: real, ys: real, zs: real, whole: real, scaled: real)
    requires xs == x * s && ys == y * s && zs == z * s
    requires whole == x * a + y * b + z * c && scaled == xs * a + ys * b + zs * c
    ensures scaled == whole * s
  {
  }

  lemma Components(m: Matrix3, u: Point)
    ensures m.Apply(u).x == u.x * m.r0.x + u.y * m.r1.x + u.z * m.r2.x
    ensures m.Apply(u).y == u.x * m.r0.y + u.y * m.r1.y + u.z * m.r2.y
    ensures m.Apply(u).z == u.x * m.r0.z + u.y * m.r1.z + u.z * m.r2.z
  {
  }

  lemma Scales(m: Matrix3, p: Point, s: real)
    ensures m.Apply(p.Times(s)) == m.Apply(p).Times(s)
  {
    Components(m, p.Times(s));
    Components(m, p);
    var q, l, r := p.Times(s), m.Apply(p.Times(s)), m.Apply(p);
    hide Matrix3.Apply;
    ScaledSum(m.r0.x, m.r1.x, m.r2.x, p.x, p.y, p.z, s, q.x, q.y, q.z, r.x, l.x);
    ScaledSum(m.r0.y, m.r1.y, m.r2.y, p.x, p.y, p.z, s, q.x, q.y, q.z, r.y, l.y);
    ScaledSum(m.r0.z, m.r1.z, m.r2.z, p.x, p.y, p.z, s, q.x, q.y, q.z, r.z, l.z);
  }

  lemma Combined(b: Matrix3, a: Matrix3, p: Point)
    ensures b.Apply(a.Apply(p)) == Matrix3(b.Apply(a.r0), b.Apply(a.r1), b.Apply(a.r2)).Apply(p)
  {
    Scales(b, a.r0, p.x);
    Scales(b, a.r1, p.y);
    Scales(b, a.r2, p.z);
    Linear(b, a.r0.Times(p.x), a.r1.Times(p.y));
    Linear(b, a.r0.Times(p.x).Plus(a.r1.Times(p.y)), a.r2.Times(p.z));
    ApplyIs(a, p);
    ApplyIs(Matrix3(b.Apply(a.r0), b.Apply(a.r1), b.Apply(a.r2)), p);
    hide Matrix3.Apply;
  }

  lemma ApplyIs(m: Matrix3, p: Point)
    ensures m.Apply(p) == m.r0.Times(p.x).Plus(m.r1.Times(p.y)).Plus(m.r2.Times(p.z))
  {
  }

  // A rotation keeps products of vectors.
  lemma KeepsDot(m: Matrix3, u: Point, v: Point)
    requires m.Rotation()
    ensures m.Apply(u).Dot(m.Apply(v)) == u.Dot(v)
  {
    RotationRows(m);
    assert m.r0.Dot(m.r0) == 1.0 && m.r1.Dot(m.r1) == 1.0 && m.r0.Dot(m.r1) == 0.0;
    hide Matrix3.Apply, Matrix3.Rotation, Point.Dot, Weighted;
    var w := m.Apply(v);
    AgainstRow(m, u, w);
    AgainstRow(m, v, m.r0);
    AgainstRow(m, v, m.r1);
    AgainstRow(m, v, m.r2);
    DotCommutes(m.r0, w);
    DotCommutes(m.r1, w);
    DotCommutes(m.r2, w);
    UnitWeights(v);
    DotIsWeighted(u, v);
  }

  lemma DotIsWeighted(u: Point, v: Point)
    ensures Weighted(u, v.x, v.y, v.z) == u.Dot(v)
  {
  }

  lemma CrossComponent(ui: real, uj: real, uk: real, vi: real, vj: real, vk: real,
                       p0: real, p1: real, p2: real, q0: real, q1: real, q2: real)
    ensures (ui * p0 + uj * p1 + uk * p2) * (vi * q0 + vj * q1 + vk * q2)
            - (ui * q0 + uj * q1 + uk * q2) * (vi * p0 + vj * p1 + vk * p2)
            == (uj * vk - uk * vj) * (p1 * q2 - q1 * p2) + (uk * vi - ui * vk) * (p2 * q0 - q2 * p0)
               + (ui * vj - uj * vi) * (p0 * q1 - q0 * p1)
  {
  }

  lemma CrossRow(ui: real, uj: real, uk: real, vi: real, vj: real, vk: real, ci: real, cj: real, ck: real,
                 p0: real, p1: real, p2: real, q0: real, q1: real, q2: real, r0: real, r1: real, r2: real,
                 up: real, uq: real, vp: real, vq: real)
    requires up == ui * p0 + uj * p1 + uk * p2 && uq == ui * q0 + uj * q1 + uk * q2
    requires vp == vi * p0 + vj * p1 + vk * p2 && vq == vi * q0 + vj * q1 + vk * q2
    requires r0 == p1 * q2 - q1 * p2 && r1 == p2 * q0 - q2 * p0 && r2 == p0 * q1 - q0 * p1
    requires ci == uj * vk - uk * vj && cj == uk * vi - ui * vk && ck == ui * vj - uj * vi
    ensures up * vq - uq * vp == ci * r0 + cj * r1 + ck * r2
  {
    CrossComponent(ui, uj, uk, vi, vj, vk, p0, p1, p2, q0, q1, q2);
  }

  // And it keeps cross products.
  lemma KeepsCross(m: Matrix3, u: Point, v: Point)
    requires m.Rotation()
    ensures m.Apply(u.Cross(v)) == m.Apply(u).Cross(m.Apply(v))
  {
    RotationRows(m);
    assert m.r2 == m.r0.Cross(m.r1);
    hide Matrix3.Rotation;
    CrossX(m, u, v);
    CrossY(m, u, v);
    CrossZ(m, u, v);
    var l, r := m.Apply(u.Cross(v)), m.Apply(u).Cross(m.Apply(v));
    hide Matrix3.Apply, Point.Cross;
    assert l.x == r.x && l.y == r.y && l.z == r.z;
  }

  lemma CrossX(m: Matrix3, u: Point, v: Point)
    requires m.r1.Cross(m.r2) == m.r0 && m.r2.Cross(m.r0) == m.r1 && m.r2 == m.r0.Cross(m.r1)
    ensures m.Apply(u.Cross(v)).x == m.Apply(u).Cross(m.Apply(v)).x
  {
    Components(m, u);
    Components(m, v);
    Components(m, u.Cross(v));
    CrossComponents(m.Apply(u), m.Apply(v));
    CrossComponents(u, v);
    CrossComponents(m.r1, m.r2);
    CrossComponents(m.r2, m.r0);
    CrossComponents(m.r0, m.r1);
    hide Matrix3.Apply, Point.Cross;
    var c, mu, mv := u.Cross(v), m.Apply(u), m.Apply(v);
    CrossRow(u.x, u.y, u.z, v.x, v.y, v.z, c.x, c.y, c.z, m.r0.y, m.r1.y, m.r2.y, m.r0.z, m.r1.z, m.r2.z,
             m.r0.x, m.r1.x, m.r2.x, mu.y, mu.z, mv.y, mv.z);
  }

  lemma CrossY(m: Matrix3, u: Point, v: Point)
    requires m.r1.Cross(m.r2) == m.r0 && m.r2.Cross(m.r0) == m.r1 && m.r2 == m.r0.Cross(m.r1)
    ensures m.Apply(u.Cross(v)).y == m.Apply(u).Cross(m.Apply(v)).y
  {
    Components(m, u);
    Components(m, v);
    Components(m, u.Cross(v));
    CrossComponents(m.Apply(u), m.Apply(v));
    CrossComponents(u, v);
    CrossComponents(m.r1, m.r2);
    CrossComponents(m.r2, m.r0);
    CrossComponents(m.r0, m.r1);
    hide Matrix3.Apply, Point.Cross;
    var c, mu, mv := u.Cross(v), m.Apply(u), m.Apply(v);
    CrossRow(u.x, u.y, u.z, v.x, v.y, v.z, c.x, c.y, c.z, m.r0.z, m.r1.z, m.r2.z, m.r0.x, m.r1.x, m.r2.x,
             m.r0.y, m.r1.y, m.r2.y, mu.z, mu.x, mv.z, mv.x);
  }

  lemma CrossZ(m: Matrix3, u: Point, v: Point)
    requires m.r1.Cross(m.r2) == m.r0 && m.r2.Cross(m.r0) == m.r1 && m.r2 == m.r0.Cross(m.r1)
    ensures m.Apply(u.Cross(v)).z == m.Apply(u).Cross(m.Apply(v)).z
  {
    Components(m, u);
    Components(m, v);
    Components(m, u.Cross(v));
    CrossComponents(m.Apply(u), m.Apply(v));
    CrossComponents(u, v);
    CrossComponents(m.r1, m.r2);
    CrossComponents(m.r2, m.r0);
    CrossComponents(m.r0, m.r1);
    hide Matrix3.Apply, Point.Cross;
    var c, mu, mv := u.Cross(v), m.Apply(u), m.Apply(v);
    CrossRow(u.x, u.y, u.z, v.x, v.y, v.z, c.x, c.y, c.z, m.r0.x, m.r1.x, m.r2.x, m.r0.y, m.r1.y, m.r2.y,
             m.r0.z, m.r1.z, m.r2.z, mu.x, mu.y, mv.x, mv.y);
  }

  lemma ThenRotates(a: Rigid, b: Rigid)
    requires a.rot.Rotation() && b.rot.Rotation()
    ensures Then(a, b).rot.Rotation()
  {
    assert a.rot.r0.Dot(a.rot.r0) == 1.0 && a.rot.r1.Dot(a.rot.r1) == 1.0 && a.rot.r0.Dot(a.rot.r1) == 0.0;
    assert a.rot.r2 == a.rot.r0.Cross(a.rot.r1);
    KeepsDot(b.rot, a.rot.r0, a.rot.r0);
    KeepsDot(b.rot, a.rot.r1, a.rot.r1);
    KeepsDot(b.rot, a.rot.r0, a.rot.r1);
    KeepsCross(b.rot, a.rot.r0, a.rot.r1);
    hide Matrix3.Apply, Point.Cross, Point.Dot;
  }

  lemma InverseRotates(r: Rigid)
    requires r.rot.Rotation()
    ensures Inverse(r).rot.Rotation()
  {
    RotationRows(r.rot);
    RotationColumns(r.rot);
    var m := r.rot;
    CrossComponents(m.r1, m.r2);
    CrossComponents(m.r2, m.r0);
    CrossComponents(m.r0, m.r1);
    CrossComponents(m.Transpose().r0, m.Transpose().r1);
    assert m.r2 == m.r0.Cross(m.r1);
    hide Point.Cross, Point.Dot;
    assert m.Transpose().r2.x == m.Transpose().r0.Cross(m.Transpose().r1).x;
    assert m.Transpose().r2.y == m.Transpose().r0.Cross(m.Transpose().r1).y;
    assert m.Transpose().r2.z == m.Transpose().r0.Cross(m.Transpose().r1).z;
  }

  lemma TimesOne(p: Point)
    ensures p.Times(1.0) == p && p.Times(0.0) == Point(0.0, 0.0, 0.0)
  {
  }

  lemma IdentityRotates()
    ensures IDENTITY.rot.Rotation()
    ensures Inverse(IDENTITY) == IDENTITY
  {
    UnitPoints();
    IdentityTurnsBack();
    hide Point.Dot, Point.Cross;
  }

  lemma UnitPoints()
    ensures Point(1.0, 0.0, 0.0).Dot(Point(1.0, 0.0, 0.0)) == 1.0
    ensures Point(0.0, 1.0, 0.0).Dot(Point(0.0, 1.0, 0.0)) == 1.0
    ensures Point(1.0, 0.0, 0.0).Dot(Point(0.0, 1.0, 0.0)) == 0.0
    ensures Point(1.0, 0.0, 0.0).Cross(Point(0.0, 1.0, 0.0)) == Point(0.0, 0.0, 1.0)
  {
    FirstIsUnit();
    SecondIsUnit();
    UnitsAreSquare();
    UnitCross();
    hide Point.Cross, Point.Dot;
  }

  lemma FirstIsUnit()
    ensures Point(1.0, 0.0, 0.0).Dot(Point(1.0, 0.0, 0.0)) == 1.0
  {
  }

  lemma SecondIsUnit()
    ensures Point(0.0, 1.0, 0.0).Dot(Point(0.0, 1.0, 0.0)) == 1.0
  {
  }

  lemma UnitsAreSquare()
    ensures Point(1.0, 0.0, 0.0).Dot(Point(0.0, 1.0, 0.0)) == 0.0
  {
  }

  lemma UnitCross()
    ensures Point(1.0, 0.0, 0.0).Cross(Point(0.0, 1.0, 0.0)) == Point(0.0, 0.0, 1.0)
  {
  }

  lemma IdentityTurnsBack()
    ensures Inverse(IDENTITY) == IDENTITY
  {
    DotOfZero(IDENTITY.rot.r0);
    DotOfZero(IDENTITY.rot.r1);
    DotOfZero(IDENTITY.rot.r2);
    hide Point.Dot;
  }

  lemma DotOfZero(p: Point)
    ensures Point(0.0, 0.0, 0.0).Dot(p) == 0.0
  {
  }

  lemma IdentityApplies(p: Point)
    ensures IDENTITY.Apply(p) == p
  {
  }

  // A world matrix, or none.
  datatype World = Unset | Set(matrix: Rigid) {
    function Value(): Rigid { if Set? then matrix else IDENTITY }
  }

  // From the space of the object at w into the space of the one at w'.
  function Between(w: World, w': World): Rigid { Then(w.Value(), Inverse(w'.Value())) }

  // The transforms from either object's space into the other's, as InitQuery composes them.
  method BetweenWorlds(world0: World, world1: World) returns (from0to1: Rigid, from1to0: Rigid)
    requires world0.Value().rot.Rotation() && world1.Value().rot.Rotation()
    ensures from0to1 == Between(world0, world1) && from1to0 == Between(world1, world0)
    ensures from0to1.rot.Rotation() && from1to0.rot.Rotation()
    ensures forall p: Point :: world1.Value().Apply(from0to1.Apply(p)) == world0.Value().Apply(p)
    ensures forall p: Point :: world0.Value().Apply(from1to0.Apply(p)) == world1.Value().Apply(p)
    ensures forall p: Point :: from1to0.Apply(from0to1.Apply(p)) == p && from0to1.Apply(from1to0.Apply(p)) == p
  {
    hide Matrix3.Rotation, Rigid.Apply, Inverse, Then;
    var invWorld0, invWorld1 := IDENTITY, IDENTITY;
    if world0.Set? {
      invWorld0 := InvertPRMatrix(world0.matrix);
    }
    if world1.Set? {
      invWorld1 := InvertPRMatrix(world1.matrix);
    }
    from0to1 := if world0.Set? then Then(world0.matrix, invWorld1) else invWorld1;
    from1to0 := if world1.Set? then Then(world1.matrix, invWorld0) else invWorld0;
    IdentityRotates();
    NothingFirst(invWorld0);
    NothingFirst(invWorld1);
    BetweenFacts(world0, world1);
  }

  lemma BetweenFacts(world0: World, world1: World)
    requires world0.Value().rot.Rotation() && world1.Value().rot.Rotation()
    ensures var from0to1, from1to0 := Between(world0, world1), Between(world1, world0);
            && from0to1.rot.Rotation() && from1to0.rot.Rotation()
            && (forall p: Point :: world1.Value().Apply(from0to1.Apply(p)) == world0.Value().Apply(p))
            && (forall p: Point :: world0.Value().Apply(from1to0.Apply(p)) == world1.Value().Apply(p))
            && forall p: Point :: from1to0.Apply(from0to1.Apply(p)) == p && from0to1.Apply(from1to0.Apply(p)) == p
  {
    hide Matrix3.Rotation, Rigid.Apply, Inverse, Then, World.Value;
    var w0, w1 := world0.Value(), world1.Value();
    var from0to1, from1to0 := Between(world0, world1), Between(world1, world0);
    InverseRotates(w0);
    InverseRotates(w1);
    ThenRotates(w0, Inverse(w1));
    ThenRotates(w1, Inverse(w0));
    forall p: Point
      ensures w1.Apply(from0to1.Apply(p)) == w0.Apply(p) && w0.Apply(from1to0.Apply(p)) == w1.Apply(p)
      ensures from1to0.Apply(from0to1.Apply(p)) == p && from0to1.Apply(from1to0.Apply(p)) == p
    {
      ThereAndBack(w0, w1, p);
      ThereAndBack(w1, w0, p);
    }
  }

  lemma NothingFirst(a: Rigid)
    ensures Then(IDENTITY, a) == a
  {
    UnitRowsPick(a.rot);
    OriginMoves(a);
  }

  lemma UnitRowsPick(m: Matrix3)
    ensures m.Apply(Point(1.0, 0.0, 0.0)) == m.r0 && m.Apply(Point(0.0, 1.0, 0.0)) == m.r1
    ensures m.Apply(Point(0.0, 0.0, 1.0)) == m.r2
  {
    TimesOne(m.r0);
    TimesOne(m.r1);
    TimesOne(m.r2);
    hide Point.Times;
  }

  lemma OriginMoves(a: Rigid)
    ensures a.Apply(Point(0.0, 0.0, 0.0)) == a.trans
  {
  }

  lemma ThereAndBack(w0: Rigid, w1: Rigid, p: Point)
    requires w0.rot.Rotation() && w1.rot.Rotation()
    ensures w1.Apply(Then(w0, Inverse(w1)).Apply(p)) == w0.Apply(p)
    ensures Then(w1, Inverse(w0)).Apply(Then(w0, Inverse(w1)).Apply(p)) == p
  {
    hide Matrix3.Rotation, Rigid.Apply, Inverse, Then;
    var q := Then(w0, Inverse(w1)).Apply(p);
    ThenApplies(w0, Inverse(w1), p);
    InverseUndoes(w1, w0.Apply(p));
    ThenApplies(w1, Inverse(w0), q);
    InverseUndoes(w0, p);
  }

  // Two points a world matrix takes to one place are one.
  lemma SameInWorld(w: Rigid, p: Point, q: Point)
    requires w.rot.Rotation() && w.Apply(p) == w.Apply(q)
    ensures p == q
  {
    hide Rigid.Apply, Matrix3.Rotation, Inverse;
    InverseUndoes(w, p);
    InverseUndoes(w, q);
  }

  // ---- moved triangles

  function Moved(t: Triangle, r: Rigid): Triangle { Triangle(r.Apply(t.v0), r.Apply(t.v1), r.Apply(t.v2)) }

  lemma MovedPoint(t: Triangle, r: Rigid, u: real, v: real)
    ensures At(Moved(t, r), u, v) == r.Apply(At(t, u, v))
  {
    var m, o, p, q := r.rot, t.v0, t.v1.Minus(t.v0), t.v2.Minus(t.v0);
    Linear(m, o.Plus(p.Times(u)), q.Times(v));
    Linear(m, o, p.Times(u));
    Scales(m, p, u);
    Scales(m, q, v);
    Difference(m, t.v1, t.v0);
    Difference(m, t.v2, t.v0);
    hide Matrix3.Apply, Point.Times;
  }
}
