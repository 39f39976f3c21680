// The separating-axis test of two boxes, in its general form and with one box fixed.
module OrientedBoxes {
  import opened RealArithmetic
  import opened Geometry
  import opened RigidTransforms

  const BOX_EPSILON: real := 0.000001

  function AbsPlus(p: Point): Point {
    Point(BOX_EPSILON + Abs(p.x), BOX_EPSILON + Abs(p.y), BOX_EPSILON + Abs(p.z))
  }

  // The absolute rotation, widened a little.
  function AbsMatrix(m: Matrix3): Matrix3 { Matrix3(AbsPlus(m.r0), AbsPlus(m.r1), AbsPlus(m.r2)) }

  // Some point of box b, moved by r, is a point of box a.
  ghost predicate ShareAPoint(a: Box, b: Box, r: Rigid) {
    exists p: Point :: InBox(p, b) && InBox(r.Apply(p), a)
  }

  // An axis along a side of the first box: t is the distance of the centers along it.
  predicate SideMeets(t: real, e: real, eb: Point, a0: real, a1: real, a2: real) {
    Abs(t) <= e + eb.x * a0 + eb.y * a1 + eb.z * a2
  }

  // An axis along a side of the second box.
  predicate RowMeets(t: Point, row: Point, ea: Point, abs: Point, e: real) {
    Abs(t.x * row.x + t.y * row.y + t.z * row.z) <= ea.x * abs.x + ea.y * abs.y + ea.z * abs.z + e
  }

  // An axis perpendicular to a side of each box.
  predicate CrossMeets(tp: real, tq: real, rp: real, rq: real, eap: real, eaq: real, ap: real, aq: real,
                       eb1: real, ab1: real, eb2: real, ab2: real) {
    Abs(tq * rp - tp * rq) <= eap * aq + eaq * ap + eb1 * ab1 + eb2 * ab2
  }

  predicate SidesMeet(t: Point, ea: Point, eb: Point, ar: Matrix3) {
    && SideMeets(t.x, ea.x, eb, ar.r0.x, ar.r1.x, ar.r2.x)
    && SideMeets(t.y, ea.y, eb, ar.r0.y, ar.r1.y, ar.r2.y)
    && SideMeets(t.z, ea.z, eb, ar.r0.z, ar.r1.z, ar.r2.z)
  }

  predicate RowsMeet(t: Point, m: Matrix3, ea: Point, eb: Point, ar: Matrix3) {
    && RowMeets(t, m.r0, ea, ar.r0, eb.x)
    && RowMeets(t, m.r1, ea, ar.r1, eb.y)
    && RowMeets(t, m.r2, ea, ar.r2, eb.z)
  }

  predicate CrossesMeet(t: Point, m: Matrix3, ea: Point, eb: Point, ar: Matrix3) {
    && CrossMeets(t.y, t.z, m.r0.y, m.r0.z, ea.y, ea.z, ar.r0.y, ar.r0.z, eb.y, ar.r2.x, eb.z, ar.r1.x)
    && CrossMeets(t.y, t.z, m.r1.y, m.r1.z, ea.y, ea.z, ar.r1.y, ar.r1.z, eb.x, ar.r2.x, eb.z, ar.r0.x)
    && CrossMeets(t.y, t.z, m.r2.y, m.r2.z, ea.y, ea.z, ar.r2.y, ar.r2.z, eb.x, ar.r1.x, eb.y, ar.r0.x)
    && CrossMeets(t.z, t.x, m.r0.z, m.r0.x, ea.z, ea.x, ar.r0.z, ar.r0.x, eb.y, ar.r2.y, eb.z, ar.r1.y)
    && CrossMeets(t.z, t.x, m.r1.z, m.r1.x, ea.z, ea.x, ar.r1.z, ar.r1.x, eb.x, ar.r2.y, eb.z, ar.r0.y)
    && CrossMeets(t.z, t.x, m.r2.z, m.r2.x, ea.z, ea.x, ar.r2.z, ar.r2.x, eb.x, ar.r1.y, eb.y, ar.r0.y)
    && CrossMeets(t.x, t.y, m.r0.x, m.r0.y, ea.x, ea.y, ar.r0.x, ar.r0.y, eb.y, ar.r2.z, eb.z, ar.r1.z)
    && CrossMeets(t.x, t.y, m.r1.x, m.r1.y, ea.x, ea.y, ar.r1.x, ar.r1.y, eb.x, ar.r2.z, eb.z, ar.r0.z)
    && CrossMeets(t.x, t.y, m.r2.x, m.r2.y, ea.x, ea.y, ar.r2.x, ar.r2.y, eb.x, ar.r1.z, eb.y, ar.r0.z)
  }

  // No axis separates: the answer of the test, with or without the nine mixed axes.
  predicate AxesMeet(t: Point, m: Matrix3, ea: Point, eb: Point, full: bool) {
    var ar := AbsMatrix(m);
    SidesMeet(t, ea, eb, ar) && RowsMeet(t, m, ea, eb, ar) && (full ==> CrossesMeet(t, m, ea, eb, ar))
  }

  // ---- soundness: the offset of the centers is w - (b.x r0 + b.y r1 + b.z r2), with w inside
  // the first box and b inside the second

  lemma Scaled(b: real, e: real, r: real, a: real)
    requires Abs(b) <= e && Abs(r) <= a
    ensures Abs(b * r) <= e * a
  {
    ScaledBy(b, e, r);
    ProductMonotone(Abs(r), a, e);
    assert Abs(r) * e == e * Abs(r) && a * e == e * a;
  }

  lemma SumBound(v: real, x: real, y: real, z: real, w: real, bx: real, ey: real, ez: real, ew: real)
    requires v == x - y - z + w
    requires Abs(x) <= bx && Abs(y) <= ey && Abs(z) <= ez && Abs(w) <= ew
    ensures Abs(v) <= bx + ey + ez + ew
  {
  }

  lemma ScaledBy(b: real, e: real, r: real)
    requires Abs(b) <= e
    ensures Abs(b * r) <= e * Abs(r)
  {
    ProductMonotone(Abs(b), e, Abs(r));
    if b >= 0.0 && r >= 0.0 {
      ProductNonNegative(b, r);
    } else if b >= 0.0 {
      ProductNonNegative(b, -r);
    } else if r >= 0.0 {
      ProductNonNegative(-b, r);
    } else {
      ProductNonNegative(-b, -r);
    }
  }

  lemma SideNeverSeparates(t: real, w: real, e: real, b: Point, eb: Point, r0: real, r1: real, r2: real,
                           a0: real, a1: real, a2: real)
    requires t == w - (b.x * r0 + b.y * r1 + b.z * r2) && Abs(w) <= e
    requires Abs(b.x) <= eb.x && Abs(b.y) <= eb.y && Abs(b.z) <= eb.z
    requires Abs(r0) <= a0 && Abs(r1) <= a1 && Abs(r2) <= a2
    ensures SideMeets(t, e, eb, a0, a1, a2)
  {
    Scaled(b.x, eb.x, r0, a0);
    Scaled(b.y, eb.y, r1, a1);
    Scaled(b.z, eb.z, r2, a2);
    SumBound(t, w, b.x * r0, b.y * r1, -(b.z * r2), e, eb.x * a0, eb.y * a1, eb.z * a2);
  }

  lemma RowBound(v: real, wx: real, wy: real, wz: real, rx: real, ry: real, rz: real, b: real,
                 ex: real, ey: real, ez: real, ax: real, ay: real, az: real, e: real)
    requires v == wx * rx + wy * ry + wz * rz - b
    requires Abs(wx) <= ex && Abs(wy) <= ey && Abs(wz) <= ez && Abs(b) <= e
    requires Abs(rx) <= ax && Abs(ry) <= ay && Abs(rz) <= az
    ensures Abs(v) <= ex * ax + ey * ay + ez * az + e
  {
    Scaled(wx, ex, rx, ax);
    Scaled(wy, ey, ry, ay);
    Scaled(wz, ez, rz, az);
    SumBound(v, wx * rx, -(wy * ry), -(wz * rz), -b, ex * ax, ey * ay, ez * az, e);
  }

  lemma RowNeverSeparates(t: Point, row: Point, w: Point, ea: Point, abs: Point, b: real, e: real)
    requires t.Dot(row) == w.Dot(row) - b
    requires Abs(w.x) <= ea.x && Abs(w.y) <= ea.y && Abs(w.z) <= ea.z && Abs(b) <= e
    requires Abs(row.x) <= abs.x && Abs(row.y) <= abs.y && Abs(row.z) <= abs.z
    ensures RowMeets(t, row, ea, abs, e)
  {
    hide Point.Dot, Abs, RowMeets;
    DotIs(w, row);
    RowBound(t.Dot(row), w.x, w.y, w.z, row.x, row.y, row.z, b, ea.x, ea.y, ea.z, abs.x, abs.y, abs.z, e);
    RowMeetsByDot(t, row, ea, abs, e);
  }

  lemma RowMeetsByDot(t: Point, row: Point, ea: Point, abs: Point, e: real)
    ensures RowMeets(t, row, ea, abs, e) <==> Abs(t.Dot(row)) <= ea.x * abs.x + ea.y * abs.y + ea.z * abs.z + e
  {
  }

  lemma DotIs(p: Point, q: Point)
    ensures p.Dot(q) == p.x * q.x + p.y * q.y + p.z * q.z
  {
  }

  // rj x rk = rl on the component perpendicular to p and q, so only the other two rows of the
  // second box matter.
  lemma CrossNeverSeparates(tp: real, tq: real, wp: real, wq: real, bj: real, bk: real, bl: real,
                            rjp: real, rjq: real, rkp: real, rkq: real, rlp: real, rlq: real, rki: real, rli: real,
                            eap: real, eaq: real, ap: real, aq: real, ek: real, el: real, ak: real, al: real)
    requires tp == wp - (bj * rjp + bk * rkp + bl * rlp) && tq == wq - (bj * rjq + bk * rkq + bl * rlq)
    requires rli == rjp * rkq - rjq * rkp && rki == rlp * rjq - rlq * rjp
    requires Abs(wp) <= eap && Abs(wq) <= eaq && Abs(bk) <= ek && Abs(bl) <= el
    requires Abs(rjp) <= ap && Abs(rjq) <= aq && Abs(rli) <= al && Abs(rki) <= ak
    ensures CrossMeets(tp, tq, rjp, rjq, eap, eaq, ap, aq, ek, al, el, ak)
    ensures CrossMeets(tp, tq, rjp, rjq, eap, eaq, ap, aq, el, ak, ek, al)
  {
    hide Abs;
    CrossIdentity(tp, tq, wp, wq, bj, bk, bl, rjp, rjq, rkp, rkq, rlp, rlq);
    CrossBound(tq * rjp - tp * rjq, wp, wq, bk, bl, rjp, rjq, rki, rli, eap, eaq, ap, aq, ek, el, ak, al);
  }

  lemma CrossBound(v: real, wp: real, wq: real, bk: real, bl: real, rjp: real, rjq: real, rki: real, rli: real,
                   eap: real, eaq: real, ap: real, aq: real, ek: real, el: real, ak: real, al: real)
    requires v == wq * rjp - wp * rjq - bk * rli + bl * rki
    requires Abs(wp) <= eap && Abs(wq) <= eaq && Abs(bk) <= ek && Abs(bl) <= el
    requires Abs(rjp) <= ap && Abs(rjq) <= aq && Abs(rli) <= al && Abs(rki) <= ak
    ensures Abs(v) <= eap * aq + eaq * ap + ek * al + el * ak
  {
    Scaled(wq, eaq, rjp, ap);
    Scaled(wp, eap, rjq, aq);
    Scaled(bk, ek, rli, al);
    Scaled(bl, el, rki, ak);
    SumBound(v, wq * rjp, wp * rjq, bk * rli, bl * rki, eaq * ap, eap * aq, ek * al, el * ak);
  }

  lemma CrossIdentity(tp: real, tq: real, wp: real, wq: real, bj: real, bk: real, bl: real,
                      rjp: real, rjq: real, rkp: real, rkq: real, rlp: real, rlq: real)
    requires tp == wp - (bj * rjp + bk * rkp + bl * rlp) && tq == wq - (bj * rjq + bk * rkq + bl * rlq)
    ensures tq * rjp - tp * rjq ==
            wq * rjp - wp * rjq - bk * (rjp * rkq - rjq * rkp) + bl * (rlp * rjq - rlq * rjp)
  {
  }

  lemma OffsetOfCenters(a: Box, b: Box, r: Rigid, p: Point)
    requires InBox(p, b) && InBox(r.Apply(p), a)
    ensures var t := r.Apply(b.center).Minus(a.center); var w := r.Apply(p).Minus(a.center); var q := p.Minus(b.center);
            && t == w.Minus(r.rot.Apply(q))
            && Abs(w.x) <= a.extents.x && Abs(w.y) <= a.extents.y && Abs(w.z) <= a.extents.z
            && Abs(q.x) <= b.extents.x && Abs(q.y) <= b.extents.y && Abs(q.z) <= b.extents.z
  {
    OffsetInBox(a, r.Apply(p));
    OffsetInBox(b, p);
    hide Matrix3.Apply, InBox, Abs;
    Difference(r.rot, p, b.center);
  }

  lemma OffsetInBox(b: Box, p: Point)
    requires InBox(p, b)
    ensures var q := p.Minus(b.center); Abs(q.x) <= b.extents.x && Abs(q.y) <= b.extents.y && Abs(q.z) <= b.extents.z
  {
  }

  lemma AbsMatrixBounds(m: Matrix3)
    ensures var ar := AbsMatrix(m);
            && Bounded(m.r0, ar.r0) && Bounded(m.r1, ar.r1) && Bounded(m.r2, ar.r2)
  {
  }

  predicate Bounded(p: Point, e: Point) { Abs(p.x) <= e.x && Abs(p.y) <= e.y && Abs(p.z) <= e.z }

  lemma SidesNeverSeparate(t: Point, m: Matrix3, w: Point, q: Point, ea: Point, eb: Point, ar: Matrix3)
    requires t == w.Minus(m.Apply(q)) && Bounded(w, ea) && Bounded(q, eb)
    requires Bounded(m.r0, ar.r0) && Bounded(m.r1, ar.r1) && Bounded(m.r2, ar.r2)
    ensures SidesMeet(t, ea, eb, ar)
  {
    hide SideMeets;
    SideNeverSeparates(t.x, w.x, ea.x, q, eb, m.r0.x, m.r1.x, m.r2.x, ar.r0.x, ar.r1.x, ar.r2.x);
    SideNeverSeparates(t.y, w.y, ea.y, q, eb, m.r0.y, m.r1.y, m.r2.y, ar.r0.y, ar.r1.y, ar.r2.y);
    SideNeverSeparates(t.z, w.z, ea.z, q, eb, m.r0.z, m.r1.z, m.r2.z, ar.r0.z, ar.r1.z, ar.r2.z);
  }

  lemma RowsNeverSeparate(t: Point, m: Matrix3, w: Point, q: Point, ea: Point, eb: Point, ar: Matrix3)
    requires t == w.Minus(m.Apply(q)) && Bounded(w, ea) && Bounded(q, eb) && m.Rotation()
    requires Bounded(m.r0, ar.r0) && Bounded(m.r1, ar.r1) && Bounded(m.r2, ar.r2)
    ensures RowsMeet(t, m, ea, eb, ar)
  {
    RotationRows(m);
    UnitRows(m);
    hide RowMeets, Matrix3.Rotation, Point.Dot, Weighted, Matrix3.Apply, Point.Minus;
    RowOffset(t, m, w, q, m.r0);
    RowOffset(t, m, w, q, m.r1);
    RowOffset(t, m, w, q, m.r2);
    UnitWeights(q);
    RowNeverSeparates(t, m.r0, w, ea, ar.r0, q.x, eb.x);
    RowNeverSeparates(t, m.r1, w, ea, ar.r1, q.y, eb.y);
    RowNeverSeparates(t, m.r2, w, ea, ar.r2, q.z, eb.z);
  }

  lemma UnitRows(m: Matrix3)
    requires m.Rotation()
    ensures m.r0.Dot(m.r0) == 1.0 && m.r1.Dot(m.r1) == 1.0 && m.r0.Dot(m.r1) == 0.0
  {
  }

  lemma RowOffset(t: Point, m: Matrix3, w: Point, q: Point, row: Point)
    requires t == w.Minus(m.Apply(q))
    ensures t.Dot(row) == w.Dot(row) - Weighted(q, m.r0.Dot(row), m.r1.Dot(row), m.r2.Dot(row))
  {
    AgainstRow(m, q, row);
    DotOfMinus(w, m.Apply(q), row);
    hide Weighted, Matrix3.Apply, Point.Dot;
  }

  lemma DotOfMinus(p: Point, q: Point, r: Point)
    ensures p.Minus(q).Dot(r) == p.Dot(r) - q.Dot(r)
  {
  }

  // The cyclic change of coordinates that makes the next axis the first.
  function Turn(p: Point): Point { Point(p.y, p.z, p.x) }

  function TurnRows(m: Matrix3): Matrix3 { Matrix3(Turn(m.r0), Turn(m.r1), Turn(m.r2)) }

  // The three axes between the first axis of the first box and the sides of the second.
  predicate FirstCrossesMeet(t: Point, m: Matrix3, ea: Point, eb: Point, ar: Matrix3) {
    && CrossMeets(t.y, t.z, m.r0.y, m.r0.z, ea.y, ea.z, ar.r0.y, ar.r0.z, eb.y, ar.r2.x, eb.z, ar.r1.x)
    && CrossMeets(t.y, t.z, m.r1.y, m.r1.z, ea.y, ea.z, ar.r1.y, ar.r1.z, eb.x, ar.r2.x, eb.z, ar.r0.x)
    && CrossMeets(t.y, t.z, m.r2.y, m.r2.z, ea.y, ea.z, ar.r2.y, ar.r2.z, eb.x, ar.r1.x, eb.y, ar.r0.x)
  }

  lemma CrossesByTurns(t: Point, m: Matrix3, ea: Point, eb: Point, ar: Matrix3)
    ensures CrossesMeet(t, m, ea, eb, ar) <==>
            && FirstCrossesMeet(t, m, ea, eb, ar)
            && FirstCrossesMeet(Turn(t), TurnRows(m), Turn(ea), eb, TurnRows(ar))
            && FirstCrossesMeet(Turn(Turn(t)), TurnRows(TurnRows(m)), Turn(Turn(ea)), eb, TurnRows(TurnRows(ar)))
  {
    hide CrossMeets;
  }

  // The rows satisfy the product relations on their first component.
  predicate CyclicFirst(m: Matrix3) {
    && m.r0.x == m.r1.y * m.r2.z - m.r1.z * m.r2.y
    && m.r1.x == m.r2.y * m.r0.z - m.r2.z * m.r0.y
    && m.r2.x == m.r0.y * m.r1.z - m.r0.z * m.r1.y
  }

  lemma FirstCrossesNeverSeparate(t: Point, m: Matrix3, w: Point, q: Point, ea: Point, eb: Point, ar: Matrix3)
    requires t.y == w.y - (q.x * m.r0.y + q.y * m.r1.y + q.z * m.r2.y)
    requires t.z == w.z - (q.x * m.r0.z + q.y * m.r1.z + q.z * m.r2.z)
    requires Bounded(w, ea) && Bounded(q, eb) && CyclicFirst(m)
    requires Bounded(m.r0, ar.r0) && Bounded(m.r1, ar.r1) && Bounded(m.r2, ar.r2)
    ensures FirstCrossesMeet(t, m, ea, eb, ar)
  {
    hide CrossMeets, Abs;
    CrossNeverSeparates(t.y, t.z, w.y, w.z, q.x, q.y, q.z, m.r0.y, m.r0.z, m.r1.y, m.r1.z, m.r2.y, m.r2.z,
                        m.r1.x, m.r2.x, ea.y, ea.z, ar.r0.y, ar.r0.z, eb.y, eb.z, ar.r1.x, ar.r2.x);
    CrossNeverSeparates(t.y, t.z, w.y, w.z, q.y, q.z, q.x, m.r1.y, m.r1.z, m.r2.y, m.r2.z, m.r0.y, m.r0.z,
                        m.r2.x, m.r0.x, ea.y, ea.z, ar.r1.y, ar.r1.z, eb.z, eb.x, ar.r2.x, ar.r0.x);
    CrossNeverSeparates(t.y, t.z, w.y, w.z, q.z, q.x, q.y, m.r2.y, m.r2.z, m.r0.y, m.r0.z, m.r1.y, m.r1.z,
                        m.r0.x, m.r1.x, ea.y, ea.z, ar.r2.y, ar.r2.z, eb.x, eb.y, ar.r0.x, ar.r1.x);
  }

  lemma RotationIsCyclic(m: Matrix3)
    requires m.Rotation()
    ensures CyclicFirst(m) && CyclicFirst(TurnRows(m)) && CyclicFirst(TurnRows(TurnRows(m)))
  {
    hide Point.Cross, Point.Dot, CyclicFirst, Turn;
    RotationRows(m);
    assert m.r2 == m.r0.Cross(m.r1);
    hide Matrix3.Rotation;
    TurnKeepsCross(m.r1, m.r2);
    TurnKeepsCross(m.r2, m.r0);
    TurnKeepsCross(m.r0, m.r1);
    TurnKeepsCross(Turn(m.r1), Turn(m.r2));
    TurnKeepsCross(Turn(m.r2), Turn(m.r0));
    TurnKeepsCross(Turn(m.r0), Turn(m.r1));
    RowsAreCyclic(m);
    RowsAreCyclic(TurnRows(m));
    RowsAreCyclic(TurnRows(TurnRows(m)));
  }

  lemma TurnKeepsCross(p: Point, q: Point)
    ensures Turn(p.Cross(q)) == Turn(p).Cross(Turn(q))
  {
  }

  lemma RowsAreCyclic(m: Matrix3)
    requires m.r0 == m.r1.Cross(m.r2) && m.r1 == m.r2.Cross(m.r0) && m.r2 == m.r0.Cross(m.r1)
    ensures CyclicFirst(m)
  {
    CrossComponents(m.r1, m.r2);
    CrossComponents(m.r2, m.r0);
    CrossComponents(m.r0, m.r1);
    hide Point.Cross;
  }

  lemma CrossesNeverSeparate(t: Point, m: Matrix3, w: Point, q: Point, ea: Point, eb: Point, ar: Matrix3)
    requires t == w.Minus(m.Apply(q)) && Bounded(w, ea) && Bounded(q, eb) && m.Rotation()
    requires Bounded(m.r0, ar.r0) && Bounded(m.r1, ar.r1) && Bounded(m.r2, ar.r2)
    ensures CrossesMeet(t, m, ea, eb, ar)
  {
    hide FirstCrossesMeet, CyclicFirst, Abs;
    RotationIsCyclic(m);
    CrossesByTurns(t, m, ea, eb, ar);
    TermOrder(t, m, w, q);
    FirstCrossesNeverSeparate(t, m, w, q, ea, eb, ar);
    FirstCrossesNeverSeparate(Turn(t), TurnRows(m), Turn(w), q, Turn(ea), eb, TurnRows(ar));
    FirstCrossesNeverSeparate(Turn(Turn(t)), TurnRows(TurnRows(m)), Turn(Turn(w)), q, Turn(Turn(ea)), eb,
                              TurnRows(TurnRows(ar)));
  }

  lemma TermOrder(t: Point, m: Matrix3, w: Point, q: Point)
    requires t == w.Minus(m.Apply(q))
    ensures t.x == w.x - (q.x * m.r0.x + q.y * m.r1.x + q.z * m.r2.x)
    ensures t.y == w.y - (q.x * m.r0.y + q.y * m.r1.y + q.z * m.r2.y)
    ensures t.z == w.z - (q.x * m.r0.z + q.y * m.r1.z + q.z * m.r2.z)
  {
  }

  // The test never rejects two boxes that share a point, whichever axes it tries.
  lemma NeverSeparatesTouching(a: Box, b: Box, r: Rigid, full: bool)
    requires r.rot.Rotation() && ShareAPoint(a, b, r)
    ensures AxesMeet(r.Apply(b.center).Minus(a.center), r.rot, a.extents, b.extents, full)
  {
    hide SidesMeet, RowsMeet, CrossesMeet, Matrix3.Rotation, AbsMatrix;
    var p: Point :| InBox(p, b) && InBox(r.Apply(p), a);
    OffsetOfCenters(a, b, r, p);
    AbsMatrixBounds(r.rot);
    var t, w, q := r.Apply(b.center).Minus(a.center), r.Apply(p).Minus(a.center), p.Minus(b.center);
    var ar := AbsMatrix(r.rot);
    SidesNeverSeparate(t, r.rot, w, q, a.extents, b.extents, ar);
    RowsNeverSeparate(t, r.rot, w, q, a.extents, b.extents, ar);
    CrossesNeverSeparate(t, r.rot, w, q, a.extents, b.extents, ar);
  }
}
