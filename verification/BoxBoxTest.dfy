// The box-box test as it runs: the general form, and the parts of it that depend on one box alone.
module BoxBoxTest {
  import opened Geometry
  import opened RigidTransforms
  import opened OrientedBoxes

  function Products2(a: real, b: real, c: real, d: real): real { a * b + c * d }

  // A mixed axis with the second box's reach already summed up.
  predicate CrossWith(tp: real, tq: real, rp: real, rq: real, eap: real, eaq: real, ap: real, aq: real, rest: real) {
    Abs(tq * rp - tp * rq) <= eap * aq + eaq * ap + rest
  }

  predicate CrossesWith(t: Point, m: Matrix3, ea: Point, ar: Matrix3, bbx: Point, bby: Point, bbz: Point) {
    && CrossWith(t.y, t.z, m.r0.y, m.r0.z, ea.y, ea.z, ar.r0.y, ar.r0.z, bbx.x)
    && CrossWith(t.y, t.z, m.r1.y, m.r1.z, ea.y, ea.z, ar.r1.y, ar.r1.z, bbx.y)
    && CrossWith(t.y, t.z, m.r2.y, m.r2.z, ea.y, ea.z, ar.r2.y, ar.r2.z, bbx.z)
    && CrossWith(t.z, t.x, m.r0.z, m.r0.x, ea.z, ea.x, ar.r0.z, ar.r0.x, bby.x)
    && CrossWith(t.z, t.x, m.r1.z, m.r1.x, ea.z, ea.x, ar.r1.z, ar.r1.x, bby.y)
    && CrossWith(t.z, t.x, m.r2.z, m.r2.x, ea.z, ea.x, ar.r2.z, ar.r2.x, bby.z)
    && CrossWith(t.x, t.y, m.r0.x, m.r0.y, ea.x, ea.y, ar.r0.x, ar.r0.y, bbz.x)
    && CrossWith(t.x, t.y, m.r1.x, m.r1.y, ea.x, ea.y, ar.r1.x, ar.r1.y, bbz.y)
    && CrossWith(t.x, t.y, m.r2.x, m.r2.y, ea.x, ea.y, ar.r2.x, ar.r2.y, bbz.z)
  }

  // The reaches of the second box, along the first box's sides and on the mixed axes.
  predicate Parts(bb: Point, bbx: Point, bby: Point, bbz: Point, eb: Point, ar: Matrix3) {
    && bb == Point(Reach3(eb, ar.r0.x, ar.r1.x, ar.r2.x), Reach3(eb, ar.r0.y, ar.r1.y, ar.r2.y),
                   Reach3(eb, ar.r0.z, ar.r1.z, ar.r2.z))
    && bbx == MixedPart(eb, ar.r0.x, ar.r1.x, ar.r2.x)
    && bby == MixedPart(eb, ar.r0.y, ar.r1.y, ar.r2.y)
    && bbz == MixedPart(eb, ar.r0.z, ar.r1.z, ar.r2.z)
  }

  function Reach3(eb: Point, a0: real, a1: real, a2: real): real { eb.x * a0 + eb.y * a1 + eb.z * a2 }

  function MixedPart(eb: Point, a0: real, a1: real, a2: real): Point {
    Point(Products2(eb.y, a2, eb.z, a1), Products2(eb.x, a2, eb.z, a0), Products2(eb.x, a1, eb.y, a0))
  }

  method SecondBoxParts(eb: Point, ar: Matrix3) returns (bb: Point, bbx: Point, bby: Point, bbz: Point)
    ensures Parts(bb, bbx, bby, bbz, eb, ar)
  {
    hide Products2, Reach3;
    bb := Point(Reach3(eb, ar.r0.x, ar.r1.x, ar.r2.x), Reach3(eb, ar.r0.y, ar.r1.y, ar.r2.y),
                Reach3(eb, ar.r0.z, ar.r1.z, ar.r2.z));
    var bb1 := Products2(eb.y, ar.r2.x, eb.z, ar.r1.x);
    var bb2 := Products2(eb.x, ar.r2.x, eb.z, ar.r0.x);
    var bb3 := Products2(eb.x, ar.r1.x, eb.y, ar.r0.x);
    var bb4 := Products2(eb.y, ar.r2.y, eb.z, ar.r1.y);
    var bb5 := Products2(eb.x, ar.r2.y, eb.z, ar.r0.y);
    var bb6 := Products2(eb.x, ar.r1.y, eb.y, ar.r0.y);
    var bb7 := Products2(eb.y, ar.r2.z, eb.z, ar.r1.z);
    var bb8 := Products2(eb.x, ar.r2.z, eb.z, ar.r0.z);
    var bb9 := Products2(eb.x, ar.r1.z, eb.y, ar.r0.z);
    bbx, bby, bbz := Point(bb1, bb2, bb3), Point(bb4, bb5, bb6), Point(bb7, bb8, bb9);
  }

  lemma SideFromPart(t: real, e: real, eb: Point, a0: real, a1: real, a2: real)
    ensures SideMeets(t, e, eb, a0, a1, a2) <==> Abs(t) <= e + Reach3(eb, a0, a1, a2)
  {
  }

  lemma SidesFromParts(t: Point, ea: Point, bb: Point, bbx: Point, bby: Point, bbz: Point, eb: Point, ar: Matrix3)
    requires Parts(bb, bbx, bby, bbz, eb, ar)
    ensures SidesMeet(t, ea, eb, ar) <==> Abs(t.x) <= ea.x + bb.x && Abs(t.y) <= ea.y + bb.y && Abs(t.z) <= ea.z + bb.z
  {
    hide Reach3, SideMeets, MixedPart;
    SideFromPart(t.x, ea.x, eb, ar.r0.x, ar.r1.x, ar.r2.x);
    SideFromPart(t.y, ea.y, eb, ar.r0.y, ar.r1.y, ar.r2.y);
    SideFromPart(t.z, ea.z, eb, ar.r0.z, ar.r1.z, ar.r2.z);
  }

  lemma CrossFromPart(tp: real, tq: real, rp: real, rq: real, eap: real, eaq: real, ap: real, aq: real,
                      eb1: real, ab1: real, eb2: real, ab2: real)
    ensures CrossMeets(tp, tq, rp, rq, eap, eaq, ap, aq, eb1, ab1, eb2, ab2) <==>
            CrossWith(tp, tq, rp, rq, eap, eaq, ap, aq, Products2(eb1, ab1, eb2, ab2))
  {
  }

  lemma CrossesFromParts(t: Point, m: Matrix3, ea: Point, bb: Point, bbx: Point, bby: Point, bbz: Point, eb: Point,
                         ar: Matrix3)
    requires Parts(bb, bbx, bby, bbz, eb, ar)
    ensures CrossesMeet(t, m, ea, eb, ar) <==> CrossesWith(t, m, ea, ar, bbx, bby, bbz)
  {
    hide Reach3, CrossMeets, CrossWith, Products2;
    CrossFromPart(t.y, t.z, m.r0.y, m.r0.z, ea.y, ea.z, ar.r0.y, ar.r0.z, eb.y, ar.r2.x, eb.z, ar.r1.x);
    CrossFromPart(t.y, t.z, m.r1.y, m.r1.z, ea.y, ea.z, ar.r1.y, ar.r1.z, eb.x, ar.r2.x, eb.z, ar.r0.x);
    CrossFromPart(t.y, t.z, m.r2.y, m.r2.z, ea.y, ea.z, ar.r2.y, ar.r2.z, eb.x, ar.r1.x, eb.y, ar.r0.x);
    CrossFromPart(t.z, t.x, m.r0.z, m.r0.x, ea.z, ea.x, ar.r0.z, ar.r0.x, eb.y, ar.r2.y, eb.z, ar.r1.y);
    CrossFromPart(t.z, t.x, m.r1.z, m.r1.x, ea.z, ea.x, ar.r1.z, ar.r1.x, eb.x, ar.r2.y, eb.z, ar.r0.y);
    CrossFromPart(t.z, t.x, m.r2.z, m.r2.x, ea.z, ea.x, ar.r2.z, ar.r2.x, eb.x, ar.r1.y, eb.y, ar.r0.y);
    CrossFromPart(t.x, t.y, m.r0.x, m.r0.y, ea.x, ea.y, ar.r0.x, ar.r0.y, eb.y, ar.r2.z, eb.z, ar.r1.z);
    CrossFromPart(t.x, t.y, m.r1.x, m.r1.y, ea.x, ea.y, ar.r1.x, ar.r1.y, eb.x, ar.r2.z, eb.z, ar.r0.z);
    CrossFromPart(t.x, t.y, m.r2.x, m.r2.y, ea.x, ea.y, ar.r2.x, ar.r2.y, eb.x, ar.r1.z, eb.y, ar.r0.z);
  }

  // The sides of the second box.
  method RowsTest(t: Point, m: Matrix3, ea: Point, eb: Point, ar: Matrix3) returns (overlap: bool)
    ensures overlap == RowsMeet(t, m, ea, eb, ar)
  {
    hide RowMeets;
    if !RowMeets(t, m.r0, ea, ar.r0, eb.x) { return false; }
    if !RowMeets(t, m.r1, ea, ar.r1, eb.y) { return false; }
    return RowMeets(t, m.r2, ea, ar.r2, eb.z);
  }

  // The nine mixed axes.
  method CrossesTest(t: Point, m: Matrix3, ea: Point, ar: Matrix3, bbx: Point, bby: Point, bbz: Point)
    returns (overlap: bool)
    ensures overlap == CrossesWith(t, m, ea, ar, bbx, bby, bbz)
  {
    hide CrossWith;
    if !CrossWith(t.y, t.z, m.r0.y, m.r0.z, ea.y, ea.z, ar.r0.y, ar.r0.z, bbx.x) { return false; }
    if !CrossWith(t.y, t.z, m.r1.y, m.r1.z, ea.y, ea.z, ar.r1.y, ar.r1.z, bbx.y) { return false; }
    if !CrossWith(t.y, t.z, m.r2.y, m.r2.z, ea.y, ea.z, ar.r2.y, ar.r2.z, bbx.z) { return false; }
    if !CrossWith(t.z, t.x, m.r0.z, m.r0.x, ea.z, ea.x, ar.r0.z, ar.r0.x, bby.x) { return false; }
    if !CrossWith(t.z, t.x, m.r1.z, m.r1.x, ea.z, ea.x, ar.r1.z, ar.r1.x, bby.y) { return false; }
    if !CrossWith(t.z, t.x, m.r2.z, m.r2.x, ea.z, ea.x, ar.r2.z, ar.r2.x, bby.z) { return false; }
    if !CrossWith(t.x, t.y, m.r0.x, m.r0.y, ea.x, ea.y, ar.r0.x, ar.r0.y, bbz.x) { return false; }
    if !CrossWith(t.x, t.y, m.r1.x, m.r1.y, ea.x, ea.y, ar.r1.x, ar.r1.y, bbz.y) { return false; }
    return CrossWith(t.x, t.y, m.r2.x, m.r2.y, ea.x, ea.y, ar.r2.x, ar.r2.y, bbz.z);
  }

  // The general form: box a fixed in its own space, box b moved by r.
  method BoxBoxOverlap(ea: Point, ca: Point, eb: Point, cb: Point, r: Rigid, ar: Matrix3, full: bool)
    returns (overlap: bool)
    requires ar == AbsMatrix(r.rot)
    ensures overlap == AxesMeet(r.Apply(cb).Minus(ca), r.rot, ea, eb, full)
  {
    hide AbsMatrix, RowsMeet, SideMeets, CrossMeets;
    var m := r.rot;
    var tx := m.r0.x * cb.x + m.r1.x * cb.y + m.r2.x * cb.z + r.trans.x - ca.x;
    var ty := m.r0.y * cb.x + m.r1.y * cb.y + m.r2.y * cb.z + r.trans.y - ca.y;
    var tz := m.r0.z * cb.x + m.r1.z * cb.y + m.r2.z * cb.z + r.trans.z - ca.z;
    var t := Point(tx, ty, tz);
    assert t == r.Apply(cb).Minus(ca);
    hide Rigid.Apply, Point.Minus;
    if !SideMeets(t.x, ea.x, eb, ar.r0.x, ar.r1.x, ar.r2.x) { return false; }
    if !SideMeets(t.y, ea.y, eb, ar.r0.y, ar.r1.y, ar.r2.y) { return false; }
    if !SideMeets(t.z, ea.z, eb, ar.r0.z, ar.r1.z, ar.r2.z) { return false; }
    overlap := RowsTest(t, m, ea, eb, ar);
    if !overlap { return; }
    if full {
      if !CrossMeets(t.y, t.z, m.r0.y, m.r0.z, ea.y, ea.z, ar.r0.y, ar.r0.z, eb.y, ar.r2.x, eb.z, ar.r1.x) {
        return false;
      }
      if !CrossMeets(t.y, t.z, m.r1.y, m.r1.z, ea.y, ea.z, ar.r1.y, ar.r1.z, eb.x, ar.r2.x, eb.z, ar.r0.x) {
        return false;
      }
      if !CrossMeets(t.y, t.z, m.r2.y, m.r2.z, ea.y, ea.z, ar.r2.y, ar.r2.z, eb.x, ar.r1.x, eb.y, ar.r0.x) {
        return false;
      }
      if !CrossMeets(t.z, t.x, m.r0.z, m.r0.x, ea.z, ea.x, ar.r0.z, ar.r0.x, eb.y, ar.r2.y, eb.z, ar.r1.y) {
        return false;
      }
      if !CrossMeets(t.z, t.x, m.r1.z, m.r1.x, ea.z, ea.x, ar.r1.z, ar.r1.x, eb.x, ar.r2.y, eb.z, ar.r0.y) {
        return false;
      }
      if !CrossMeets(t.z, t.x, m.r2.z, m.r2.x, ea.z, ea.x, ar.r2.z, ar.r2.x, eb.x, ar.r1.y, eb.y, ar.r0.y) {
        return false;
      }
      if !CrossMeets(t.x, t.y, m.r0.x, m.r0.y, ea.x, ea.y, ar.r0.x, ar.r0.y, eb.y, ar.r2.z, eb.z, ar.r1.z) {
        return false;
      }
      if !CrossMeets(t.x, t.y, m.r1.x, m.r1.y, ea.x, ea.y, ar.r1.x, ar.r1.y, eb.x, ar.r2.z, eb.z, ar.r0.z) {
        return false;
      }
      return CrossMeets(t.x, t.y, m.r2.x, m.r2.y, ea.x, ea.y, ar.r2.x, ar.r2.y, eb.x, ar.r1.z, eb.y, ar.r0.z);
    }
  }
}
