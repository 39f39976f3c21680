// Half-planes with a common point: three at a time is enough.
module HalfPlanes {
  import opened RealArithmetic

  datatype Spot = Spot(u: real, v: real)

  // Where a u + b v + c is not negative.
  datatype HalfPlane = HalfPlane(a: real, b: real, c: real) {
    function At(x: Spot): real { a * x.u + b * x.v + c }
  }

  ghost predicate Meet(h: HalfPlane, k: HalfPlane, l: HalfPlane) {
    exists x: Spot :: h.At(x) >= 0.0 && k.At(x) >= 0.0 && l.At(x) >= 0.0
  }

  ghost predicate InAll(x: Spot, s: seq<HalfPlane>) { forall i :: 0 <= i < |s| ==> s[i].At(x) >= 0.0 }

  ghost predicate ThreesMeet(s: seq<HalfPlane>) {
    forall i, j, k | 0 <= i < |s| && 0 <= j < |s| && 0 <= k < |s| :: Meet(s[i], s[j], s[k])
  }

  // ---- four points in the plane always split into two sets with a common hull point

  // Twice the signed area of a triangle.
  function Area(p: Spot, q: Spot, r: Spot): real { (q.u - p.u) * (r.v - p.v) - (q.v - p.v) * (r.u - p.u) }

  lemma AreasBalance(p: Spot, q: Spot, r: Spot, s: Spot)
    ensures Area(q, r, s) - Area(p, r, s) + Area(p, q, s) - Area(p, q, r) == 0.0
    ensures Area(q, r, s) * p.u - Area(p, r, s) * q.u + Area(p, q, s) * r.u - Area(p, q, r) * s.u == 0.0
    ensures Area(q, r, s) * p.v - Area(p, r, s) * q.v + Area(p, q, s) * r.v - Area(p, q, r) * s.v == 0.0
  {
  }

  function Positive(x: real): real { if x > 0.0 then x else 0.0 }

  function Sum4(a: real, w: real, b: real, x: real, c: real, y: real, d: real, z: real): real {
    a * w + b * x + c * y + d * z
  }

  // An affine function of balanced points balances.
  lemma AffineBalances(h: HalfPlane, p: Spot, q: Spot, r: Spot, s: Spot, a: real, b: real, c: real, d: real)
    ensures Sum4(a, h.At(p), b, h.At(q), c, h.At(r), d, h.At(s)) ==
            h.a * Sum4(a, p.u, b, q.u, c, r.u, d, s.u) + h.b * Sum4(a, p.v, b, q.v, c, r.v, d, s.v)
            + h.c * (a + b + c + d)
  {
  }

  lemma SplitSum(a: real, w: real, b: real, x: real, c: real, y: real, d: real, z: real)
    ensures Sum4(a, w, b, x, c, y, d, z) ==
            Sum4(Positive(a), w, Positive(b), x, Positive(c), y, Positive(d), z)
            - Sum4(Positive(-a), w, Positive(-b), x, Positive(-c), y, Positive(-d), z)
  {
    SplitTerm(a, w);
    SplitTerm(b, x);
    SplitTerm(c, y);
    SplitTerm(d, z);
    hide Positive;
  }

  lemma SplitTerm(a: real, w: real)
    ensures a * w == Positive(a) * w - Positive(-a) * w
  {
  }

  lemma WeightedNonNegative(a: real, w: real)
    requires a <= 0.0 || w >= 0.0
    ensures Positive(a) * w >= 0.0
  {
    if a > 0.0 {
      ProductNonNegative(a, w);
    }
  }

  // If the balanced weights are on both sides of zero and only one value may be negative, the
  // positively weighted sum of the values is not negative.
  lemma OneBadValue(a: real, w: real, b: real, x: real, c: real, y: real, d: real, z: real)
    requires Sum4(a, w, b, x, c, y, d, z) == 0.0
    requires (x >= 0.0 && y >= 0.0 && z >= 0.0) || (w >= 0.0 && y >= 0.0 && z >= 0.0)
             || (w >= 0.0 && x >= 0.0 && z >= 0.0) || (w >= 0.0 && x >= 0.0 && y >= 0.0)
    ensures Sum4(Positive(a), w, Positive(b), x, Positive(c), y, Positive(d), z) >= 0.0
  {
    SplitSum(a, w, b, x, c, y, d, z);
    if (a <= 0.0 || w >= 0.0) && (b <= 0.0 || x >= 0.0) && (c <= 0.0 || y >= 0.0) && (d <= 0.0 || z >= 0.0) {
      WeightedNonNegative(a, w);
      WeightedNonNegative(b, x);
      WeightedNonNegative(c, y);
      WeightedNonNegative(d, z);
    } else {
      WeightedNonNegative(-a, w);
      WeightedNonNegative(-b, x);
      WeightedNonNegative(-c, y);
      WeightedNonNegative(-d, z);
    }
  }

  // The hull point of the positively weighted points.
  function HullPoint(p: Spot, q: Spot, r: Spot, s: Spot, a: real, b: real, c: real, d: real): Spot
    requires Positive(a) + Positive(b) + Positive(c) + Positive(d) > 0.0
  {
    var w := Positive(a) + Positive(b) + Positive(c) + Positive(d);
    Spot(Sum4(Positive(a), p.u, Positive(b), q.u, Positive(c), r.u, Positive(d), s.u) / w,
         Sum4(Positive(a), p.v, Positive(b), q.v, Positive(c), r.v, Positive(d), s.v) / w)
  }

  lemma HullValue(h: HalfPlane, x: Spot, w: real, su: real, sv: real, total: real)
    requires w > 0.0 && x.u == su / w && x.v == sv / w && total == h.a * su + h.b * sv + h.c * w
    ensures h.At(x) * w == total
  {
    assert x.u * w == su && x.v * w == sv;
    Scaled3(h.a, x.u, su, h.b, x.v, sv, h.c, w);
  }

  lemma Scaled3(a: real, u: real, su: real, b: real, v: real, sv: real, c: real, w: real)
    requires u * w == su && v * w == sv
    ensures (a * u + b * v + c) * w == a * su + b * sv + c * w
  {
    assert (a * u + b * v + c) * w == a * (u * w) + b * (v * w) + c * w;
  }

  lemma SignFromProduct(x: real, w: real)
    requires w > 0.0 && x * w >= 0.0
    ensures x >= 0.0
  {
    if x < 0.0 {
      ProductPositive(-x, w);
    }
  }

  // A half-plane that holds all but one of four points holds their common hull point.
  lemma HullPointIn(h: HalfPlane, p: Spot, q: Spot, r: Spot, s: Spot)
    requires var a, b, c, d := Area(q, r, s), -Area(p, r, s), Area(p, q, s), -Area(p, q, r);
             Positive(a) + Positive(b) + Positive(c) + Positive(d) > 0.0
    requires (h.At(q) >= 0.0 && h.At(r) >= 0.0 && h.At(s) >= 0.0)
             || (h.At(p) >= 0.0 && h.At(r) >= 0.0 && h.At(s) >= 0.0)
             || (h.At(p) >= 0.0 && h.At(q) >= 0.0 && h.At(s) >= 0.0)
             || (h.At(p) >= 0.0 && h.At(q) >= 0.0 && h.At(r) >= 0.0)
    ensures h.At(HullPoint(p, q, r, s, Area(q, r, s), -Area(p, r, s), Area(p, q, s), -Area(p, q, r))) >= 0.0
  {
    var a, b, c, d := Area(q, r, s), -Area(p, r, s), Area(p, q, s), -Area(p, q, r);
    AreasBalance(p, q, r, s);
    BalancedSums(p, q, r, s);
    hide Area, Positive, Sum4, HalfPlane.At;
    AffineBalances(h, p, q, r, s, a, b, c, d);
    ZeroTerms(h.a, Sum4(a, p.u, b, q.u, c, r.u, d, s.u), h.b, Sum4(a, p.v, b, q.v, c, r.v, d, s.v), h.c, a + b + c + d);
    OneBadValue(a, h.At(p), b, h.At(q), c, h.At(r), d, h.At(s));
    AffineBalances(h, p, q, r, s, Positive(a), Positive(b), Positive(c), Positive(d));
    var w := Positive(a) + Positive(b) + Positive(c) + Positive(d);
    var x := HullPoint(p, q, r, s, a, b, c, d);
    HullValue(h, x, w, Sum4(Positive(a), p.u, Positive(b), q.u, Positive(c), r.u, Positive(d), s.u),
              Sum4(Positive(a), p.v, Positive(b), q.v, Positive(c), r.v, Positive(d), s.v),
              Sum4(Positive(a), h.At(p), Positive(b), h.At(q), Positive(c), h.At(r), Positive(d), h.At(s)));
    SignFromProduct(h.At(x), w);
  }

  lemma BalancedSums(p: Spot, q: Spot, r: Spot, s: Spot)
    ensures var a, b, c, d := Area(q, r, s), -Area(p, r, s), Area(p, q, s), -Area(p, q, r);
            && a + b + c + d == 0.0
            && Sum4(a, p.u, b, q.u, c, r.u, d, s.u) == 0.0 && Sum4(a, p.v, b, q.v, c, r.v, d, s.v) == 0.0
  {
    AreasBalance(p, q, r, s);
    hide Area;
  }

  lemma ZeroTerms(a: real, x: real, b: real, y: real, c: real, z: real)
    requires x == 0.0 && y == 0.0 && z == 0.0
    ensures a * x + b * y + c * z == 0.0
  {
  }

  // ---- three points on a line: one is between the others

  ghost predicate Between(x: Spot, p: Spot, q: Spot) {
    exists t: real :: OnSegment(t, x, p, q)
  }

  predicate OnSegment(t: real, x: Spot, p: Spot, q: Spot) {
    0.0 <= t <= 1.0 && x.u == p.u + t * (q.u - p.u) && x.v == p.v + t * (q.v - p.v)
  }

  lemma BetweenIn(h: HalfPlane, x: Spot, p: Spot, q: Spot)
    requires Between(x, p, q) && h.At(p) >= 0.0 && h.At(q) >= 0.0
    ensures h.At(x) >= 0.0
  {
    var t :| OnSegment(t, x, p, q);
    SegmentValue(h, x, p, q, t);
    ProductNonNegative(1.0 - t, h.At(p));
    ProductNonNegative(t, h.At(q));
  }

  lemma SegmentValue(h: HalfPlane, x: Spot, p: Spot, q: Spot, t: real)
    requires x.u == p.u + t * (q.u - p.u) && x.v == p.v + t * (q.v - p.v)
    ensures h.At(x) == (1.0 - t) * h.At(p) + t * h.At(q)
  {
  }

  lemma OneBetween(p: Spot, q: Spot, r: Spot)
    requires Area(p, q, r) == 0.0
    ensures Between(p, q, r) || Between(q, p, r) || Between(r, p, q)
  {
    if p == r {
      assert OnSegment(1.0, p, q, r);
    } else {
      var t := Along(p, q, r);
      if t < 0.0 {
        var k := -t / (1.0 - t);
        Reparameter(p.u, q.u, r.u, t, k);
        Reparameter(p.v, q.v, r.v, t, k);
        UnitQuotient(-t, 1.0 - t);
        assert OnSegment(k, p, q, r);
      } else if t > 1.0 {
        var k := 1.0 / t;
        assert k * t == 1.0;
        UnitQuotient(1.0, t);
        Shorten(p.u, q.u, r.u, t, k);
        Shorten(p.v, q.v, r.v, t, k);
        assert OnSegment(k, r, p, q);
      } else {
        assert OnSegment(t, q, p, r);
      }
    }
  }

  lemma UnitQuotient(n: real, d: real)
    requires 0.0 <= n <= d && d > 0.0
    ensures 0.0 <= n / d <= 1.0
  {
    var k := n / d;
    assert k * d == n;
    if k < 0.0 { ProductPositive(-k, d); }
    if k > 1.0 { ProductPositive(k - 1.0, d); }
  }

  // p lies on the segment from q to r when q = p + t (r - p) with t negative.
  lemma Reparameter(p: real, q: real, r: real, t: real, k: real)
    requires t < 0.0 && k == -t / (1.0 - t) && q == p + t * (r - p)
    ensures p == q + k * (r - q)
  {
    assert k * (1.0 - t) == -t;
    assert r - q == (1.0 - t) * (r - p);
    assert k * (r - q) == (k * (1.0 - t)) * (r - p);
  }

  lemma Shorten(p: real, q: real, r: real, t: real, k: real)
    requires k * t == 1.0 && q == p + t * (r - p)
    ensures r == p + k * (q - p)
  {
    assert k * (q - p) == (k * t) * (r - p);
  }

  // The coordinate of q on the line through p and r.
  lemma Along(p: Spot, q: Spot, r: Spot) returns (t: real)
    requires p != r && Area(p, q, r) == 0.0
    ensures q.u == p.u + t * (r.u - p.u) && q.v == p.v + t * (r.v - p.v)
  {
    var du, dv := r.u - p.u, r.v - p.v;
    if du != 0.0 {
      t := (q.u - p.u) / du;
      assert t * du == q.u - p.u;
      SameSlope(q.u - p.u, q.v - p.v, du, dv, t);
    } else {
      t := (q.v - p.v) / dv;
      assert t * dv == q.v - p.v;
      ZeroProduct(q.u - p.u, dv);
    }
  }

  lemma SameSlope(x: real, y: real, du: real, dv: real, t: real)
    requires du != 0.0 && x * dv - y * du == 0.0 && t * du == x
    ensures t * dv == y
  {
    assert (t * dv - y) * du == (t * du) * dv - y * du;
    ZeroProduct(t * dv - y, du);
  }

  // ---- Helly's theorem for half-planes

  // One point for four, each missing from at most one half-plane of its own.
  lemma Combine(p: Spot, q: Spot, r: Spot, s: Spot) returns (x: Spot)
    ensures forall h: HalfPlane ::
              (h.At(q) >= 0.0 && h.At(r) >= 0.0 && h.At(s) >= 0.0)
              || (h.At(p) >= 0.0 && h.At(r) >= 0.0 && h.At(s) >= 0.0)
              || (h.At(p) >= 0.0 && h.At(q) >= 0.0 && h.At(s) >= 0.0)
              || (h.At(p) >= 0.0 && h.At(q) >= 0.0 && h.At(r) >= 0.0)
              ==> h.At(x) >= 0.0
  {
    hide HalfPlane.At, Area, Between;
    var a, b, c, d := Area(q, r, s), -Area(p, r, s), Area(p, q, s), -Area(p, q, r);
    if Positive(a) + Positive(b) + Positive(c) + Positive(d) > 0.0 {
      x := HullPoint(p, q, r, s, a, b, c, d);
      forall h: HalfPlane |
        (h.At(q) >= 0.0 && h.At(r) >= 0.0 && h.At(s) >= 0.0) || (h.At(p) >= 0.0 && h.At(r) >= 0.0 && h.At(s) >= 0.0)
        || (h.At(p) >= 0.0 && h.At(q) >= 0.0 && h.At(s) >= 0.0) || (h.At(p) >= 0.0 && h.At(q) >= 0.0 && h.At(r) >= 0.0)
        ensures h.At(x) >= 0.0
      {
        HullPointIn(h, p, q, r, s);
      }
    } else {
      AreasBalance(p, q, r, s);
      NoWeights(a, b, c, d);
      OneBetween(p, q, r);
      x := if Between(p, q, r) then p else if Between(q, p, r) then q else r;
      forall h: HalfPlane |
        (h.At(q) >= 0.0 && h.At(r) >= 0.0 && h.At(s) >= 0.0) || (h.At(p) >= 0.0 && h.At(r) >= 0.0 && h.At(s) >= 0.0)
        || (h.At(p) >= 0.0 && h.At(q) >= 0.0 && h.At(s) >= 0.0) || (h.At(p) >= 0.0 && h.At(q) >= 0.0 && h.At(r) >= 0.0)
        ensures h.At(x) >= 0.0
      {
        if Between(p, q, r) {
          if h.At(p) < 0.0 { BetweenIn(h, p, q, r); }
        } else if Between(q, p, r) {
          if h.At(q) < 0.0 { BetweenIn(h, q, p, r); }
        } else {
          if h.At(r) < 0.0 { BetweenIn(h, r, p, q); }
        }
      }
    }
  }

  lemma NoWeights(a: real, b: real, c: real, d: real)
    requires a + b + c + d == 0.0 && Positive(a) + Positive(b) + Positive(c) + Positive(d) <= 0.0
    ensures a == 0.0 && b == 0.0 && c == 0.0 && d == 0.0
  {
  }

  function Without(s: seq<HalfPlane>, i: nat): (r: seq<HalfPlane>)
    requires i < |s|
    ensures |r| == |s| - 1
  {
    s[..i] + s[i + 1..]
  }

  lemma WithoutKeeps(s: seq<HalfPlane>, i: nat)
    requires i < |s| && ThreesMeet(s)
    ensures ThreesMeet(Without(s, i))
  {
    hide Meet;
    var r := Without(s, i);
    forall a, b, c | 0 <= a < |r| && 0 <= b < |r| && 0 <= c < |r| ensures Meet(r[a], r[b], r[c]) {
      var a', b', c' := if a < i then a else a + 1, if b < i then b else b + 1, if c < i then c else c + 1;
      assert r[a] == s[a'] && r[b] == s[b'] && r[c] == s[c'];
    }
  }

  lemma InWithout(x: Spot, s: seq<HalfPlane>, i: nat)
    requires i < |s| && InAll(x, Without(s, i))
    ensures forall j :: 0 <= j < |s| && j != i ==> s[j].At(x) >= 0.0
  {
    hide HalfPlane.At;
    var r := Without(s, i);
    forall j | 0 <= j < |s| && j != i ensures s[j].At(x) >= 0.0 {
      assert s[j] == r[if j < i then j else j - 1];
    }
  }

  // If any three of the half-planes have a common point, all of them do.
  lemma {:induction false} AllMeet(s: seq<HalfPlane>) returns (x: Spot)
    requires |s| >= 3 && ThreesMeet(s)
    ensures InAll(x, s)
    decreases |s|
  {
    hide HalfPlane.At;
    if |s| == 3 {
      assert Meet(s[0], s[1], s[2]);
      x :| s[0].At(x) >= 0.0 && s[1].At(x) >= 0.0 && s[2].At(x) >= 0.0;
    } else {
      WithoutKeeps(s, 0);
      WithoutKeeps(s, 1);
      WithoutKeeps(s, 2);
      WithoutKeeps(s, 3);
      hide ThreesMeet;
      var p := AllMeet(Without(s, 0));
      var q := AllMeet(Without(s, 1));
      var r := AllMeet(Without(s, 2));
      var t := AllMeet(Without(s, 3));
      InWithout(p, s, 0);
      InWithout(q, s, 1);
      InWithout(r, s, 2);
      InWithout(t, s, 3);
      x := Combine(p, q, r, t);
    }
  }
}
