// Rotations with a translation, and their inverses.
module RigidTransforms {
  import opened Geometry

  // Three rows; points are row vectors.
  datatype Matrix3 = Matrix3(r0: Point, r1: Point, r2: Point) {
    function Apply(p: Point): Point { r0.Times(p.x).Plus(r1.Times(p.y)).Plus(r2.Times(p.z)) }

    function Transpose(): Matrix3 {
      Matrix3(Point(r0.x, r1.x, r2.x), Point(r0.y, r1.y, r2.y), Point(r0.z, r1.z, r2.z))
    }

    // Unit rows, right-handed: each row is the cross product of the other two.
    ghost predicate Rotation() {
      && r0.Dot(r0) == 1.0 && r1.Dot(r1) == 1.0
      && r0.Dot(r1) == 0.0
      && r2 == r0.Cross(r1)
    }
  }

  datatype Rigid = Rigid(rot: Matrix3, trans: Point) {
    function Apply(p: Point): Point { trans.Plus(rot.Apply(p)) }
  }

  lemma TripleProduct(a: Point, b: Point)
    ensures b.Cross(a.Cross(b)) == a.Times(b.Dot(b)).Minus(b.Times(b.Dot(a)))
    ensures a.Cross(b).Cross(a) == b.Times(a.Dot(a)).Minus(a.Times(a.Dot(b)))
  {
    TripleX(a, b);
    TripleY(a, b);
    TripleZ(a, b);
    TripleX(b, a);
    TripleY(b, a);
    TripleZ(b, a);
    hide Point.Dot;
    assert a.Cross(b).Cross(a) == a.Cross(b.Cross(a));
  }

  lemma TripleX(a: Point, b: Point)
    ensures b.Cross(a.Cross(b)).x == a.x * b.Dot(b) - b.x * b.Dot(a)
  {
    var c := a.Cross(b);
    TripleComponent(a.x, a.y, a.z, b.x, b.y, b.z, c.y, c.z, b.Dot(b), b.Dot(a));
  }

  lemma TripleY(a: Point, b: Point)
    ensures b.Cross(a.Cross(b)).y == a.y * b.Dot(b) - b.y * b.Dot(a)
  {
    var c := a.Cross(b);
    TripleComponent(a.y, a.z, a.x, b.y, b.z, b.x, c.z, c.x, b.Dot(b), b.Dot(a));
  }

  lemma TripleZ(a: Point, b: Point)
    ensures b.Cross(a.Cross(b)).z == a.z * b.Dot(b) - b.z * b.Dot(a)
  {
    var c := a.Cross(b);
    TripleComponent(a.z, a.x, a.y, b.z, b.x, b.y, c.x, c.y, b.Dot(b), b.Dot(a));
  }

  lemma TripleComponent(ai: real, aj: real, ak: real, bi: real, bj: real, bk: real, cj: real, ck: real, d: real,
                        e: real)
    requires cj == ak * bi - ai * bk && ck == ai * bj - aj * bi
    requires d == bi * bi + bj * bj + bk * bk && e == bi * ai + bj * aj + bk * ak
    ensures bj * ck - bk * cj == ai * d - bi * e
  {
  }

  // The other two cross products and products of rows follow.
  lemma RotationRows(m: Matrix3)
    requires m.Rotation()
    ensures m.r1.Cross(m.r2) == m.r0 && m.r2.Cross(m.r0) == m.r1
    ensures m.r0.Dot(m.r2) == 0.0 && m.r1.Dot(m.r2) == 0.0 && m.r2.Dot(m.r2) == 1.0
    ensures m.r1.Dot(m.r0) == 0.0 && m.r2.Dot(m.r0) == 0.0 && m.r2.Dot(m.r1) == 0.0
  {
    var a, b := m.r0, m.r1;
    TripleProduct(a, b);
    DotCommutes(a, b);
    TimesUnit(a, b);
    OrthogonalToCross(a, b);
    DotCommutes(m.r0, m.r2);
    DotCommutes(m.r1, m.r2);
    LengthOfCross(a, b);
  }

  lemma DotCommutes(a: Point, b: Point)
    ensures a.Dot(b) == b.Dot(a)
  {
  }

  lemma TimesUnit(a: Point, b: Point)
    ensures a.Times(1.0).Minus(b.Times(0.0)) == a && b.Times(1.0).Minus(a.Times(0.0)) == b
  {
  }

  lemma OrthogonalToCross(a: Point, b: Point)
    ensures a.Dot(a.Cross(b)) == 0.0 && b.Dot(a.Cross(b)) == 0.0
  {
  }

  lemma LengthOfCross(a: Point, b: Point)
    requires a.Dot(a) == 1.0 && b.Dot(b) == 1.0 && a.Dot(b) == 0.0
    ensures a.Cross(b).Dot(a.Cross(b)) == 1.0
  {
    Lagrange(a, b);
    hide Point.Dot, Point.Cross;
  }

  lemma Lagrange(a: Point, b: Point)
    ensures a.Cross(b).Dot(a.Cross(b)) == a.Dot(a) * b.Dot(b) - a.Dot(b) * a.Dot(b)
  {
    LagrangeIdentity(a.x, a.y, a.z, b.x, b.y, b.z);
  }

  lemma LagrangeIdentity(a: real, b: real, c: real, x: real, y: real, z: real)
    ensures (b * z - c * y) * (b * z - c * y) + (c * x - a * z) * (c * x - a * z) + (a * y - b * x) * (a * y - b * x) ==
            (a * a + b * b + c * c) * (x * x + y * y + z * z) - (a * x + b * y + c * z) * (a * x + b * y + c * z)
  {
  }

  // Cramer's rule on the rows: the columns are orthonormal too.
  lemma RotationColumns(m: Matrix3)
    requires m.Rotation()
    ensures var t := m.Transpose();
            && t.r0.Dot(t.r0) == 1.0 && t.r1.Dot(t.r1) == 1.0 && t.r2.Dot(t.r2) == 1.0
            && t.r0.Dot(t.r1) == 0.0 && t.r0.Dot(t.r2) == 0.0 && t.r1.Dot(t.r2) == 0.0
  {
    RotationRows(m);
    var a, b, c := m.r0, m.r1, m.r2;
    var p, q, r := b.Cross(c), c.Cross(a), a.Cross(b);
    assert p == a && q == b && r == c;
    assert a.Dot(p) == 1.0;
    Cofactors(a, b, c);
  }

  // Expanding a determinant along its own column gives it back, along another gives zero.
  lemma Cofactors(a: Point, b: Point, c: Point)
    ensures var p, q, r := b.Cross(c), c.Cross(a), a.Cross(b);
            && a.x * p.x + b.x * q.x + c.x * r.x == a.Dot(p)
            && a.y * p.y + b.y * q.y + c.y * r.y == a.Dot(p)
            && a.z * p.z + b.z * q.z + c.z * r.z == a.Dot(p)
            && a.x * p.y + b.x * q.y + c.x * r.y == 0.0
            && a.x * p.z + b.x * q.z + c.x * r.z == 0.0
            && a.y * p.z + b.y * q.z + c.y * r.z == 0.0
  {
    OwnColumns(a, b, c);
    AlienColumn(a.x, a.y, a.z, b.x, b.y, b.z, c.x, c.y, c.z);
    AlienColumn(a.x, a.z, a.y, b.x, b.z, b.y, c.x, c.z, c.y);
    AlienColumn(a.y, a.z, a.x, b.y, b.z, b.x, c.y, c.z, c.x);
  }

  lemma OwnColumns(a: Point, b: Point, c: Point)
    ensures var p, q, r := b.Cross(c), c.Cross(a), a.Cross(b);
            && a.x * p.x + b.x * q.x + c.x * r.x == a.Dot(p)
            && a.y * p.y + b.y * q.y + c.y * r.y == a.Dot(p)
            && a.z * p.z + b.z * q.z + c.z * r.z == a.Dot(p)
  {
    hide Point.Dot, Point.Cross;
    OwnColumnOf(a, b, c, b.Cross(c), c.Cross(a), a.Cross(b));
  }

  lemma OwnColumnOf(a: Point, b: Point, c: Point, p: Point, q: Point, r: Point)
    requires p == b.Cross(c) && q == c.Cross(a) && r == a.Cross(b)
    ensures a.x * p.x + b.x * q.x + c.x * r.x == a.Dot(p)
    ensures a.y * p.y + b.y * q.y + c.y * r.y == a.Dot(p)
    ensures a.z * p.z + b.z * q.z + c.z * r.z == a.Dot(p)
  {
    CrossComponents(b, c);
    CrossComponents(c, a);
    CrossComponents(a, b);
    hide Point.Cross, Point.Dot;
    OwnX(a, b, c, p, q.x, r.x);
    OwnY(a, b, c, p, q.y, r.y);
    OwnZ(a, b, c, p, q.z, r.z);
  }

  lemma OwnX(a: Point, b: Point, c: Point, p: Point, q: real, r: real)
    requires p.x == b.y * c.z - b.z * c.y && p.y == b.z * c.x - b.x * c.z && p.z == b.x * c.y - b.y * c.x
    requires q == c.y * a.z - c.z * a.y && r == a.y * b.z - a.z * b.y
    ensures a.x * p.x + b.x * q + c.x * r == a.Dot(p)
  {
    OwnColumn(a.x, a.y, a.z, b.x, b.y, b.z, c.x, c.y, c.z, p.x, p.y, p.z, q, r);
  }

  lemma OwnY(a: Point, b: Point, c: Point, p: Point, q: real, r: real)
    requires p.x == b.y * c.z - b.z * c.y && p.y == b.z * c.x - b.x * c.z && p.z == b.x * c.y - b.y * c.x
    requires q == c.z * a.x - c.x * a.z && r == a.z * b.x - a.x * b.z
    ensures a.y * p.y + b.y * q + c.y * r == a.Dot(p)
  {
    OwnColumn(a.y, a.z, a.x, b.y, b.z, b.x, c.y, c.z, c.x, p.y, p.z, p.x, q, r);
  }

  lemma OwnZ(a: Point, b: Point, c: Point, p: Point, q: real, r: real)
    requires p.x == b.y * c.z - b.z * c.y && p.y == b.z * c.x - b.x * c.z && p.z == b.x * c.y - b.y * c.x
    requires q == c.x * a.y - c.y * a.x && r == a.x * b.y - a.y * b.x
    ensures a.z * p.z + b.z * q + c.z * r == a.Dot(p)
  {
    OwnColumn(a.z, a.x, a.y, b.z, b.x, b.y, c.z, c.x, c.y, p.z, p.x, p.y, q, r);
  }

  lemma CrossComponents(a: Point, b: Point)
    ensures var c := a.Cross(b);
            && c.x == a.y * b.z - a.z * b.y && c.y == a.z * b.x - a.x * b.z && c.z == a.x * b.y - a.y * b.x
  {
  }

  lemma OwnColumn(ai: real, aj: real, ak: real, bi: real, bj: real, bk: real, ci: real, cj: real, ck: real,
                  pi: real, pj: real, pk: real, qi: real, ri: real)
    requires pi == bj * ck - bk * cj && pj == bk * ci - bi * ck && pk == bi * cj - bj * ci
    requires qi == cj * ak - ck * aj && ri == aj * bk - ak * bj
    ensures ai * pi + bi * qi + ci * ri == ai * pi + aj * pj + ak * pk
  {
  }

  lemma AlienColumn(ai: real, aj: real, ak: real, bi: real, bj: real, bk: real, ci: real, cj: real, ck: real)
    ensures ai * (bk * ci - bi * ck) + bi * (ck * ai - ci * ak) + ci * (ak * bi - ai * bk) == 0.0
    ensures ai * (bi * cj - bj * ci) + bi * (ci * aj - cj * ai) + ci * (ai * bj - aj * bi) == 0.0
  {
  }

  // InvertPRMatrix: transpose the rotation and turn the translation back.
  method InvertPRMatrix(src: Rigid) returns (dest: Rigid)
    ensures dest == Inverse(src)
  {
    var m, t := src.rot, src.trans;
    var d00 := m.r0.x;
    var d10 := m.r0.y;
    var d20 := m.r0.z;
    var d30 := -(t.x * m.r0.x + t.y * m.r0.y + t.z * m.r0.z);
    var d01 := m.r1.x;
    var d11 := m.r1.y;
    var d21 := m.r1.z;
    var d31 := -(t.x * m.r1.x + t.y * m.r1.y + t.z * m.r1.z);
    var d02 := m.r2.x;
    var d12 := m.r2.y;
    var d22 := m.r2.z;
    var d32 := -(t.x * m.r2.x + t.y * m.r2.y + t.z * m.r2.z);
    dest := Rigid(Matrix3(Point(d00, d01, d02), Point(d10, d11, d12), Point(d20, d21, d22)), Point(d30, d31, d32));
  }

  function Inverse(r: Rigid): Rigid {
    var t := r.trans;
    Rigid(r.rot.Transpose(), Point(-t.Dot(r.rot.r0), -t.Dot(r.rot.r1), -t.Dot(r.rot.r2)))
  }

  // Undoing a rigid transform after it, and before it, leaves every point where it was.
  lemma InverseUndoes(r: Rigid, p: Point)
    requires r.rot.Rotation()
    ensures Inverse(r).Apply(r.Apply(p)) == p
    ensures r.Apply(Inverse(r).Apply(p)) == p
  {
    RotationRows(r.rot);
    RotationColumns(r.rot);
    RowThenBack(r, p);
    BackThenRow(r, p);
  }

  lemma RowThenBack(r: Rigid, p: Point)
    requires var m := r.rot;
             && m.r0.Dot(m.r0) == 1.0 && m.r1.Dot(m.r1) == 1.0 && m.r2.Dot(m.r2) == 1.0
             && m.r0.Dot(m.r1) == 0.0 && m.r0.Dot(m.r2) == 0.0 && m.r1.Dot(m.r2) == 0.0
    ensures Inverse(r).Apply(r.Apply(p)) == p
  {
    var m := r.rot;
    var v := m.Apply(p);
    DotOfCombination(m.r0, m.r1, m.r2, p, m.r0);
    DotOfCombination(m.r0, m.r1, m.r2, p, m.r1);
    DotOfCombination(m.r0, m.r1, m.r2, p, m.r2);
    DotCommutes(m.r0, m.r1);
    DotCommutes(m.r0, m.r2);
    DotCommutes(m.r1, m.r2);
    var w := r.Apply(p);
    TransposeApplies(m, w);
    SplitDot(r.trans, v, m.r0);
    SplitDot(r.trans, v, m.r1);
    SplitDot(r.trans, v, m.r2);
  }

  lemma TransposeApplies(m: Matrix3, w: Point)
    ensures m.Transpose().Apply(w) == Point(w.Dot(m.r0), w.Dot(m.r1), w.Dot(m.r2))
  {
  }

  lemma SplitDot(a: Point, b: Point, c: Point)
    ensures a.Plus(b).Dot(c) == a.Dot(c) + b.Dot(c)
  {
  }

  lemma DotOfCombination(a: Point, b: Point, c: Point, p: Point, d: Point)
    ensures a.Times(p.x).Plus(b.Times(p.y)).Plus(c.Times(p.z)).Dot(d) ==
            p.x * a.Dot(d) + p.y * b.Dot(d) + p.z * c.Dot(d)
  {
  }

  lemma BackThenRow(r: Rigid, p: Point)
    requires var t := r.rot.Transpose();
             && t.r0.Dot(t.r0) == 1.0 && t.r1.Dot(t.r1) == 1.0 && t.r2.Dot(t.r2) == 1.0
             && t.r0.Dot(t.r1) == 0.0 && t.r0.Dot(t.r2) == 0.0 && t.r1.Dot(t.r2) == 0.0
    ensures r.Apply(Inverse(r).Apply(p)) == p
  {
    var m := r.rot;
    var w := p.Minus(r.trans);
    TransposeApplies(m, p);
    SplitDot(w, r.trans, m.r0);
    SplitDot(w, r.trans, m.r1);
    SplitDot(w, r.trans, m.r2);
    assert w.Plus(r.trans) == p;
    var v := Inverse(r).Apply(p);
    assert v == Point(w.Dot(m.r0), w.Dot(m.r1), w.Dot(m.r2));
    ProjectionsSumUp(m, w);
  }

  // With orthonormal columns, a point is the sum of its projections on the rows.
  lemma ProjectionsSumUp(m: Matrix3, w: Point)
    requires var t := m.Transpose();
             && t.r0.Dot(t.r0) == 1.0 && t.r1.Dot(t.r1) == 1.0 && t.r2.Dot(t.r2) == 1.0
             && t.r0.Dot(t.r1) == 0.0 && t.r0.Dot(t.r2) == 0.0 && t.r1.Dot(t.r2) == 0.0
    ensures m.Apply(Point(w.Dot(m.r0), w.Dot(m.r1), w.Dot(m.r2))) == w
  {
    var t := m.Transpose();
    ProjectionComponent(m, w, m.r0.x, m.r1.x, m.r2.x);
    ProjectionComponent(m, w, m.r0.y, m.r1.y, m.r2.y);
    ProjectionComponent(m, w, m.r0.z, m.r1.z, m.r2.z);
    DotCommutes(t.r0, t.r1);
    DotCommutes(t.r0, t.r2);
    DotCommutes(t.r1, t.r2);
  }

  lemma ProjectionComponent(m: Matrix3, w: Point, k0: real, k1: real, k2: real)
    ensures var t := m.Transpose(); var k := Point(k0, k1, k2);
            m.r0.Dot(w) * k0 + m.r1.Dot(w) * k1 + m.r2.Dot(w) * k2 ==
              w.x * t.r0.Dot(k) + w.y * t.r1.Dot(k) + w.z * t.r2.Dot(k)
    ensures w.Dot(m.r0) == m.r0.Dot(w) && w.Dot(m.r1) == m.r1.Dot(w) && w.Dot(m.r2) == m.r2.Dot(w)
  {
  }

  // A combination of three numbers with a point's coordinates.
  function Weighted(p: Point, a: real, b: real, c: real): real { p.x * a + p.y * b + p.z * c }

  lemma AgainstRow(m: Matrix3, v: Point, r: Point)
    ensures m.Apply(v).Dot(r) == Weighted(v, m.r0.Dot(r), m.r1.Dot(r), m.r2.Dot(r))
  {
    DotOfCombination(m.r0, m.r1, m.r2, v, r);
  }

  lemma UnitWeights(v: Point)
    ensures Weighted(v, 1.0, 0.0, 0.0) == v.x && Weighted(v, 0.0, 1.0, 0.0) == v.y && Weighted(v, 0.0, 0.0, 1.0) == v.z
  {
  }

  lemma Linear(m: Matrix3, p: Point, q: Point)
    ensures m.Apply(p.Plus(q)) == m.Apply(p).Plus(m.Apply(q))
  {
    var l, r := m.Apply(p.Plus(q)), m.Apply(p).Plus(m.Apply(q));
    assert l.x == r.x;
    assert l.y == r.y;
    assert l.z == r.z;
  }

  lemma Difference(m: Matrix3, p: Point, q: Point)
    ensures m.Apply(p.Minus(q)) == m.Apply(p).Minus(m.Apply(q))
  {
    Linear(m, p.Minus(q), q);
    assert p.Minus(q).Plus(q) == p;
    hide Matrix3.Apply;
  }
}
