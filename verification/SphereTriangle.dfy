// The sphere-triangle test.
module SphereTriangle {
  import opened RealArithmetic
  import opened Geometry
  import opened PointTriangleDistance


  predicate Degenerate(t: Triangle) {
    t.v1.Minus(t.v0).Cross(t.v2.Minus(t.v0)) == Point(0.0, 0.0, 0.0)
  }

  // Some point of the triangle lies strictly inside the sphere.
  ghost predicate Touches(t: Triangle, center: Point, radius2: real) {
    exists u: real, v: real :: Barycentric(u, v) && At(t, u, v).SquareDistance(center) < radius2
  }

  // What the test answers on every triangle: degenerate ones count as infinitely far.
  ghost predicate Reported(t: Triangle, center: Point, radius2: real) {
    if Degenerate(t) then FLT_MAX < radius2 else Touches(t, center, radius2)
  }

  lemma LeastDecidesTouch(t: Triangle, center: Point, radius2: real, u: real, v: real, d: real)
    requires IsLeast(FormOf(t, center), u, v, d)
    ensures d < radius2 <==> Touches(t, center, radius2)
    ensures d >= 0.0
  {
    FormIsDistance(t, center, u, v);
    var p := At(t, u, v).Minus(center);
    SquareNonNegative(p.x);
    SquareNonNegative(p.y);
    SquareNonNegative(p.z);
    forall x: real, y: real | Barycentric(x, y) && At(t, x, y).SquareDistance(center) < radius2
      ensures d < radius2
    {
      FormIsDistance(t, center, x, y);
    }
  }

  lemma NormalLength(n: Point)
    ensures n.SquareMagnitude() >= 0.0
    ensures n != Point(0.0, 0.0, 0.0) <==> n.SquareMagnitude() > 0.0
  {
    SquarePositive(n.x);
    SquarePositive(n.y);
    SquarePositive(n.z);
    assert n.SquareMagnitude() == Sq(n.x) + Sq(n.y) + Sq(n.z);
    assert n == Point(n.x, n.y, n.z);
  }

  lemma DetSign(t: Triangle, center: Point)
    ensures FormOf(t, center).Det() >= 0.0
    ensures Degenerate(t) <==> FormOf(t, center).Det() == 0.0
    ensures !Degenerate(t) ==> FormOf(t, center).Definite()
  {
    var e0, e1 := t.v1.Minus(t.v0), t.v2.Minus(t.v0);
    DetIsNormalSquared(t, center);
    NormalLength(e0.Cross(e1));
    NormalLength(e0);
    NormalLength(e1);
    hide Quad.Det, Point.SquareMagnitude, Point.Dot, Point.Cross;
    CrossOfZero(e0, e1);
  }

  lemma CrossOfZero(a: Point, b: Point)
    ensures a == Point(0.0, 0.0, 0.0) || b == Point(0.0, 0.0, 0.0) ==> a.Cross(b) == Point(0.0, 0.0, 0.0)
  {
  }

  // With a degenerate triangle both numerators vanish.
  lemma DegenerateNumerators(t: Triangle, center: Point)
    requires Degenerate(t)
    ensures FormOf(t, center).U() == 0.0 && FormOf(t, center).V() == 0.0
  {
    var e0, e1, d := t.v1.Minus(t.v0), t.v2.Minus(t.v0), t.v0.Minus(center);
    CrossTerms(e0, e1, d);
    CrossTerms(e1, e0, d);
  }

  // U and V are combinations of the components of the normal.
  lemma CrossTerms(a: Point, b: Point, d: Point)
    requires a.Cross(b) == Point(0.0, 0.0, 0.0) || b.Cross(a) == Point(0.0, 0.0, 0.0)
    ensures a.Dot(b) * d.Dot(a) - a.SquareMagnitude() * d.Dot(b) == 0.0
  {
    var n := a.Cross(b);
    assert n.x == 0.0 && n.y == 0.0 && n.z == 0.0;
    assert a.Dot(b) * d.Dot(a) - a.SquareMagnitude() * d.Dot(b) ==
           (a.y * b.z - a.z * b.y) * (d.y * a.z - d.z * a.y)
           + (a.z * b.x - a.x * b.z) * (d.z * a.x - d.x * a.z)
           + (a.x * b.y - a.y * b.x) * (d.x * a.y - d.y * a.x);
    assert n.x * (d.y * a.z - d.z * a.y) == 0.0;
    assert n.y * (d.z * a.x - d.x * a.z) == 0.0;
    assert n.z * (d.x * a.y - d.y * a.x) == 0.0;
  }

  // A unit sphere around a corner touches the triangle, degenerate or not.
  lemma CornerIsNear(t: Triangle)
    ensures Touches(t, t.v0, 1.0)
  {
    var p := At(t, 0.0, 0.0);
    assert p == t.v0;
    assert Barycentric(0.0, 0.0) && p.SquareDistance(t.v0) == 0.0;
  }

  // The test is right for every sphere exactly on triangles of nonzero area.
  lemma RightExactlyOnArea(t: Triangle)
    ensures !Degenerate(t) <==>
            forall center: Point, radius2: real :: radius2 <= FLT_MAX ==>
              (Reported(t, center, radius2) <==> Touches(t, center, radius2))
  {
    if Degenerate(t) {
      CornerIsNear(t);
      assert !Reported(t, t.v0, 1.0);
    } else {
      hide Touches, Degenerate;
    }
  }

  // The seven regions of the plane around the triangle, each ending in the point of the
  // triangle where the form is least.
  method LeastDistance(fA00: real, fA01: real, fA11: real, fB0: real, fB1: real, fC: real)
    returns (sqrDist: real, u: real, v: real)
    requires var q := Quad(fA00, fA01, fA11, fB0, fB1, fC);
             q.Definite() || (q.Det() == 0.0 && q.U() == 0.0 && q.V() == 0.0)
    ensures var q := Quad(fA00, fA01, fA11, fB0, fB1, fC);
            if q.Det() == 0.0 then sqrDist == FLT_MAX else IsLeast(q, u, v, sqrDist)
  {
    ghost var q := Quad(fA00, fA01, fA11, fB0, fB1, fC);
    var fDet := Abs(fA00 * fA11 - fA01 * fA01);
    u := fA01 * fB1 - fA11 * fB0;
    v := fA01 * fB0 - fA00 * fB1;
    assert u == q.U() && v == q.V() && fDet == q.Det();
    if u + v <= fDet {
      sqrDist, u, v := LeastNear(fA00, fA01, fA11, fB0, fB1, fC, fDet, u, v);
    } else {
      sqrDist, u, v := LeastBeyond(fA00, fA01, fA11, fB0, fB1, fC, fDet, u, v);
    }
  }

  lemma DefiniteSigns(q: Quad)
    ensures q.Definite() ==> q.Det() > 0.0 && q.a00 > 0.0 && q.a11 > 0.0
  {
  }

  // Regions 0, 3, 4 and 5.
  method LeastNear(fA00: real, fA01: real, fA11: real, fB0: real, fB1: real, fC: real, fDet: real, u0: real, v0: real)
    returns (sqrDist: real, u: real, v: real)
    requires var q := Quad(fA00, fA01, fA11, fB0, fB1, fC);
             && u0 == q.U() && v0 == q.V() && fDet == q.Det()
             && (q.Definite() || (fDet == 0.0 && u0 == 0.0 && v0 == 0.0))
    requires u0 + v0 <= fDet
    ensures var q := Quad(fA00, fA01, fA11, fB0, fB1, fC);
            if fDet == 0.0 then sqrDist == FLT_MAX else IsLeast(q, u, v, sqrDist)
  {
    ghost var q := Quad(fA00, fA01, fA11, fB0, fB1, fC);
    DefiniteSigns(q);
    hide IsLeast, Quad.Det, Quad.U, Quad.V, Quad.Value, Quad.Definite, ByRows, OnLine;
    u, v := u0, v0;
    if u < 0.0 {
      assert q.Definite();
      if v < 0.0 { // region 4
        if fB0 < 0.0 {
          v := 0.0;
          if -fB0 >= fA00 {
            Corner1NotDownhill(q);
            LeastAtCorner1(q);
            u := 1.0;
            sqrDist := fA00 + 2.0 * fB0 + fC;
          } else {
            u := -fB0 / fA00;
            LeastOnEdge0(q, fA00, fB0, u);
            sqrDist := OnLine(fB0, u, fC);
          }
        } else {
          u := 0.0;
          if fB1 >= 0.0 {
            LeastAtCorner0(q);
            v := 0.0;
            sqrDist := fC;
          } else if -fB1 >= fA11 {
            Corner2NotDownhill(q);
            LeastAtCorner2(q);
            v := 1.0;
            sqrDist := fA11 + 2.0 * fB1 + fC;
          } else {
            v := -fB1 / fA11;
            LeastOnEdge1(q, fA11, fB1, v);
            sqrDist := OnLine(fB1, v, fC);
          }
        }
      } else { // region 3
        u := 0.0;
        if fB1 >= 0.0 {
          Corner0NotDownhill(q);
          LeastAtCorner0(q);
          v := 0.0;
          sqrDist := fC;
        } else if -fB1 >= fA11 {
          Corner2NotDownhill(q);
          LeastAtCorner2(q);
          v := 1.0;
          sqrDist := fA11 + 2.0 * fB1 + fC;
        } else {
          v := -fB1 / fA11;
          LeastOnEdge1(q, fA11, fB1, v);
          sqrDist := OnLine(fB1, v, fC);
        }
      }
    } else if v < 0.0 { // region 5
      assert q.Definite();
      v := 0.0;
      if fB0 >= 0.0 {
        Corner0NotDownhillOther(q);
        LeastAtCorner0(q);
        u := 0.0;
        sqrDist := fC;
      } else if -fB0 >= fA00 {
        Corner1NotDownhill(q);
        LeastAtCorner1(q);
        u := 1.0;
        sqrDist := fA00 + 2.0 * fB0 + fC;
      } else {
        u := -fB0 / fA00;
        LeastOnEdge0(q, fA00, fB0, u);
        sqrDist := OnLine(fB0, u, fC);
      }
    } else { // region 0
      if fDet == 0.0 {
        u := 0.0;
        v := 0.0;
        sqrDist := FLT_MAX;
      } else {
        assert q.Definite();
        var fInvDet := 1.0 / fDet;
        u := u * fInvDet;
        v := v * fInvDet;
        sqrDist := ByRows(fA00, fA01, fA11, fB0, fB1, fC, u, v);
        InteriorValue(fA00, fA01, fA11, fB0, fB1, fC, u, v, u0, v0, fDet, fInvDet);
      }
    }
  }

  // Regions 1, 2 and 6.
  method LeastBeyond(fA00: real, fA01: real, fA11: real, fB0: real, fB1: real, fC: real, fDet: real, u0: real, v0: real)
    returns (sqrDist: real, u: real, v: real)
    requires var q := Quad(fA00, fA01, fA11, fB0, fB1, fC);
             && u0 == q.U() && v0 == q.V() && fDet == q.Det()
             && (q.Definite() || (fDet == 0.0 && u0 == 0.0 && v0 == 0.0))
    requires u0 + v0 > fDet
    ensures var q := Quad(fA00, fA01, fA11, fB0, fB1, fC);
            if fDet == 0.0 then sqrDist == FLT_MAX else IsLeast(q, u, v, sqrDist)
  {
    ghost var q := Quad(fA00, fA01, fA11, fB0, fB1, fC);
    DefiniteSigns(q);
    hide IsLeast, Quad.Det, Quad.U, Quad.V, Quad.Value, Quad.Definite, ByRows, OnLine;
    u, v := u0, v0;
    assert q.Definite();
    DefiniteSides(q);
    if u < 0.0 { // region 2
      var fTmp0 := fA01 + fB0;
      var fTmp1 := fA11 + fB1;
      if fTmp1 > fTmp0 {
        var fNumer := fTmp1 - fTmp0;
        var fDenom := fA00 - 2.0 * fA01 + fA11;
        if fNumer >= fDenom {
          BeyondCorner1(q);
          LeastAtCorner1(q);
          u := 1.0;
          v := 0.0;
          sqrDist := fA00 + 2.0 * fB0 + fC;
        } else {
          u := fNumer / fDenom;
          v := 1.0 - u;
          sqrDist := ByRows(fA00, fA01, fA11, fB0, fB1, fC, u, v);
          EdgeValue(fA00, fA01, fA11, fB0, fB1, fC, u, v, fNumer, fDenom);
        }
      } else {
        u := 0.0;
        if fTmp1 <= 0.0 {
          LeastAtCorner2(q);
          v := 1.0;
          sqrDist := fA11 + 2.0 * fB1 + fC;
        } else if fB1 >= 0.0 {
          Corner0NotDownhill(q);
          LeastAtCorner0(q);
          v := 0.0;
          sqrDist := fC;
        } else {
          v := -fB1 / fA11;
          LeastOnEdge1(q, fA11, fB1, v);
          sqrDist := OnLine(fB1, v, fC);
        }
      }
    } else if v < 0.0 { // region 6
      var fTmp0 := fA01 + fB1;
      var fTmp1 := fA00 + fB0;
      if fTmp1 > fTmp0 {
        var fNumer := fTmp1 - fTmp0;
        var fDenom := fA00 - 2.0 * fA01 + fA11;
        if fNumer >= fDenom {
          BeyondCorner2(q);
          LeastAtCorner2(q);
          v := 1.0;
          u := 0.0;
          sqrDist := fA11 + 2.0 * fB1 + fC;
        } else {
          v := fNumer / fDenom;
          u := 1.0 - v;
          sqrDist := ByRows(fA00, fA01, fA11, fB0, fB1, fC, u, v);
          EdgeValueOther(fA00, fA01, fA11, fB0, fB1, fC, u, v, fNumer, fDenom);
        }
      } else {
        v := 0.0;
        if fTmp1 <= 0.0 {
          LeastAtCorner1(q);
          u := 1.0;
          sqrDist := fA00 + 2.0 * fB0 + fC;
        } else if fB0 >= 0.0 {
          Corner0NotDownhillOther(q);
          LeastAtCorner0(q);
          u := 0.0;
          sqrDist := fC;
        } else {
          u := -fB0 / fA00;
          LeastOnEdge0(q, fA00, fB0, u);
          sqrDist := OnLine(fB0, u, fC);
        }
      }
    } else { // region 1
      var fNumer := fA11 + fB1 - fA01 - fB0;
      if fNumer <= 0.0 {
        BeyondCorner2(q);
        LeastAtCorner2(q);
        u := 0.0;
        v := 1.0;
        sqrDist := fA11 + 2.0 * fB1 + fC;
      } else {
        var fDenom := fA00 - 2.0 * fA01 + fA11;
        if fNumer >= fDenom {
          BeyondCorner1(q);
          LeastAtCorner1(q);
          u := 1.0;
          v := 0.0;
          sqrDist := fA00 + 2.0 * fB0 + fC;
        } else {
          u := fNumer / fDenom;
          v := 1.0 - u;
          sqrDist := ByRows(fA00, fA01, fA11, fB0, fB1, fC, u, v);
          EdgeValue(fA00, fA01, fA11, fB0, fB1, fC, u, v, fNumer, fDenom);
        }
      }
    }
  }

  function ByRows(a00: real, a01: real, a11: real, b0: real, b1: real, c: real, u: real, v: real): real {
    u * (a00 * u + a01 * v + 2.0 * b0) + v * (a01 * u + a11 * v + 2.0 * b1) + c
  }

  lemma ValueByRows(a00: real, a01: real, a11: real, b0: real, b1: real, c: real, u: real, v: real)
    ensures Quad(a00, a01, a11, b0, b1, c).Value(u, v) == ByRows(a00, a01, a11, b0, b1, c, u, v)
  {
  }

  lemma ReciprocalScales(n: real, d: real, r: real)
    requires d > 0.0 && r == 1.0 / d
    ensures (n * r) * d == n
  {
    assert r * d == 1.0;
    assert (n * r) * d == n * (r * d);
  }

  lemma InteriorValue(a00: real, a01: real, a11: real, b0: real, b1: real, c: real,
                      u: real, v: real, u0: real, v0: real, det: real, inv: real)
    requires var q := Quad(a00, a01, a11, b0, b1, c);
             && q.Definite() && u0 == q.U() && v0 == q.V() && det == q.Det()
             && u0 >= 0.0 && v0 >= 0.0 && u0 + v0 <= det
             && inv == 1.0 / det && u == u0 * inv && v == v0 * inv
    ensures IsLeast(Quad(a00, a01, a11, b0, b1, c), u, v, ByRows(a00, a01, a11, b0, b1, c, u, v))
  {
    hide IsLeast, Quad.Value, Quad.U, Quad.V, Quad.Det, ByRows;
    ReciprocalScales(u0, det, inv);
    ReciprocalScales(v0, det, inv);
    LeastInside(Quad(a00, a01, a11, b0, b1, c), u, v);
    ValueByRows(a00, a01, a11, b0, b1, c, u, v);
  }

  // The foot of the perpendicular on the edge opposite corner 0.
  lemma EdgeValue(a00: real, a01: real, a11: real, b0: real, b1: real, c: real, u: real, v: real,
                  n: real, d: real)
    requires var q := Quad(a00, a01, a11, b0, b1, c);
             && q.Definite() && q.U() + q.V() >= q.Det()
             && n == a11 + b1 - a01 - b0 && d == a00 - 2.0 * a01 + a11 && 0.0 < n < d
    requires u == n / d && v == 1.0 - u
    ensures IsLeast(Quad(a00, a01, a11, b0, b1, c), u, v, ByRows(a00, a01, a11, b0, b1, c, u, v))
  {
    hide IsLeast, Quad.Value, Quad.U, Quad.V, Quad.Det, Quad.Definite, ByRows;
    QuotientInUnit(n, d);
    assert u * d == n;
    LeastOnEdge2(Quad(a00, a01, a11, b0, b1, c), u, v);
    ValueByRows(a00, a01, a11, b0, b1, c, u, v);
  }

  lemma EdgeValueOther(a00: real, a01: real, a11: real, b0: real, b1: real, c: real, u: real, v: real,
                  n: real, d: real)
    requires var q := Quad(a00, a01, a11, b0, b1, c);
             && q.Definite() && q.U() + q.V() >= q.Det()
             && n == a00 + b0 - a01 - b1 && d == a00 - 2.0 * a01 + a11 && 0.0 < n < d
    requires v == n / d && u == 1.0 - v
    ensures IsLeast(Quad(a00, a01, a11, b0, b1, c), u, v, ByRows(a00, a01, a11, b0, b1, c, u, v))
  {
    hide IsLeast, Quad.Value, Quad.U, Quad.V, Quad.Det, Quad.Definite, ByRows;
    QuotientInUnit(n, d);
    assert v * d == n;
    assert u * d == d - n;
    LeastOnEdge2(Quad(a00, a01, a11, b0, b1, c), u, v);
    ValueByRows(a00, a01, a11, b0, b1, c, u, v);
  }
}
