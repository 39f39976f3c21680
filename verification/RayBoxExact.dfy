// The segment-box and ray-box tests reject nothing but boxes that are really missed.
module RayBoxExact {
  import opened RealArithmetic
  import opened Geometry
  import opened SeparatingAxes
  import opened RayTests

  // The part of a line d + s h that is within e of zero, for h other than zero: from Low to High.
  function Low(d: real, h: real, e: real): real
    requires h != 0.0
  {
    if h > 0.0 then (-e - d) / h else (e - d) / h
  }

  function High(d: real, h: real, e: real): real
    requires h != 0.0
  {
    if h > 0.0 then (e - d) / h else (-e - d) / h
  }

  predicate Fits(d: real, h: real, e: real, s: real) { -e <= d + h * s <= e }

  lemma Between(n: real, h: real, s: real)
    requires h > 0.0
    ensures n / h <= s <==> n <= h * s
    ensures s <= n / h <==> h * s <= n
  {
    var q := n / h;
    assert h * q == n;
    if q <= s { ProductMonotone(q, s, h); } else { ProductPositive(q - s, h); assert (q - s) * h == h * q - h * s; }
    if s <= q { ProductMonotone(s, q, h); } else { ProductPositive(s - q, h); assert (s - q) * h == h * s - h * q; }
  }

  lemma Opposite(n: real, h: real)
    requires h != 0.0
    ensures n / h == (-n) / (-h)
  {
    var q := n / h;
    assert h * q == n;
    assert (-h) * q == -n;
  }

  lemma FitsExactly(d: real, h: real, e: real, s: real)
    requires h != 0.0
    ensures Fits(d, h, e, s) <==> Low(d, h, e) <= s <= High(d, h, e)
  {
    if h > 0.0 {
      Between(-e - d, h, s);
      Between(e - d, h, s);
    } else {
      Between(d - e, -h, s);
      Between(d + e, -h, s);
      Opposite(e - d, h);
      Opposite(-e - d, h);
      assert (-h) * s == -(h * s);
    }
  }

  // ---- two axes

  lemma QuotientsInOrder(a: real, h: real, b: real, k: real)
    requires h > 0.0 && k > 0.0 && a * k <= b * h
    ensures a / h <= b / k
  {
    var q := a / h;
    assert h * q == a;
    Between(b, k, q);
    assert (k * q - b) * h == k * (h * q) - b * h;
    if k * q > b {
      ProductPositive(k * q - b, h);
    }
  }

  lemma ProductOfSum(h: real, d: real, k: real, f: real, e: real, g: real)
    requires Abs(h * f - k * d) <= e * Abs(k) + g * Abs(h) && h > 0.0 && k > 0.0
    ensures (-e - d) * k <= (g - f) * h && (-g - f) * h <= (e - d) * k
  {
    assert (-e - d) * k == -(e * k) - k * d && (g - f) * h == g * h - h * f;
    assert (-g - f) * h == -(g * h) - h * f && (e - d) * k == e * k - k * d;
  }

  // What the line does on one axis turned around.
  lemma TurnedAxis(d: real, h: real, e: real)
    requires h < 0.0
    ensures Low(d, h, e) == Low(-d, -h, e) && High(d, h, e) == High(-d, -h, e)
  {
    Opposite(e - d, h);
    Opposite(-e - d, h);
    assert -(e - d) == -e - (-d) && -(-e - d) == e - (-d);
  }

  lemma TurnedCross(h: real, d: real, k: real, f: real, e: real, g: real)
    requires CrossAxis(h, k, d, f, e, g)
    ensures CrossAxis(-h, k, -d, f, e, g) && CrossAxis(h, -k, d, -f, e, g)
  {
    assert (-h) * f - k * (-d) == -(h * f - k * d) && h * (-f) - (-k) * d == -(h * f - k * d);
  }

  lemma ForwardPartsOverlap(h: real, d: real, e: real, k: real, f: real, g: real)
    requires h > 0.0 && k > 0.0 && CrossAxis(h, k, d, f, e, g)
    ensures Low(d, h, e) <= High(f, k, g) && Low(f, k, g) <= High(d, h, e)
  {
    ProductOfSum(h, d, k, f, e, g);
    QuotientsInOrder(-e - d, h, g - f, k);
    QuotientsInOrder(-g - f, k, e - d, h);
    hide Abs;
  }

  lemma ForwardFirst(h: real, d: real, e: real, k: real, f: real, g: real)
    requires h > 0.0 && k != 0.0 && CrossAxis(h, k, d, f, e, g)
    ensures Low(d, h, e) <= High(f, k, g) && Low(f, k, g) <= High(d, h, e)
  {
    hide Low, High, CrossAxis;
    if k < 0.0 {
      TurnedAxis(f, k, g);
      TurnedCross(h, d, k, f, e, g);
      ForwardPartsOverlap(h, d, e, -k, -f, g);
    } else {
      ForwardPartsOverlap(h, d, e, k, f, g);
    }
  }

  // An axis across two sides of the box lets the parts on both overlap.
  lemma PartsOverlap(h: real, d: real, e: real, k: real, f: real, g: real)
    requires h != 0.0 && k != 0.0 && CrossAxis(h, k, d, f, e, g)
    ensures Low(d, h, e) <= High(f, k, g) && Low(f, k, g) <= High(d, h, e)
  {
    hide Low, High, CrossAxis;
    if h < 0.0 {
      TurnedAxis(d, h, e);
      TurnedCross(h, d, k, f, e, g);
      ForwardFirst(-h, -d, e, k, f, g);
    } else {
      ForwardFirst(h, d, e, k, f, g);
    }
  }

  // ---- a common point

  // The greatest of lo and those that count.
  lemma GreatestOf(lo: real, c0: bool, l0: real, c1: bool, l1: real, c2: bool, l2: real) returns (s: real)
    ensures lo <= s && (c0 ==> l0 <= s) && (c1 ==> l1 <= s) && (c2 ==> l2 <= s)
    ensures s == lo || (c0 && s == l0) || (c1 && s == l1) || (c2 && s == l2)
  {
    s := lo;
    if c0 && l0 > s { s := l0; }
    if c1 && l1 > s { s := l1; }
    if c2 && l2 > s { s := l2; }
  }

  function LowOf(d: real, h: real, e: real): real { if h == 0.0 then 0.0 else Low(d, h, e) }

  // On one axis: the part is not empty, and meets what is ahead of lo.
  ghost predicate PartAhead(d: real, h: real, e: real, lo: real) {
    if h == 0.0 then Abs(d) <= e else lo <= High(d, h, e) && Low(d, h, e) <= High(d, h, e)
  }

  lemma PartIsNotEmpty(d: real, h: real, e: real)
    requires e >= 0.0 && h != 0.0
    ensures Low(d, h, e) <= High(d, h, e)
  {
    if h > 0.0 {
      QuotientsInOrder(-e - d, h, e - d, h);
    } else {
      TurnedAxis(d, h, e);
      QuotientsInOrder(-e + d, -h, e + d, -h);
    }
  }

  lemma OnAxis(d: real, h: real, e: real, s: real)
    requires if h == 0.0 then Abs(d) <= e else Low(d, h, e) <= s <= High(d, h, e)
    ensures Fits(d, h, e, s)
  {
    if h != 0.0 {
      FitsExactly(d, h, e, s);
    }
  }

  ghost predicate StartsBefore(d: real, h: real, e: real, hi: real) { h != 0.0 ==> LowOf(d, h, e) <= hi }

  // If the parts on the three axes overlap pairwise and each meets what is ahead of lo, then all do at
  // once, and not beyond hi if none of them starts beyond it.
  lemma AllOverlap(d: Point, h: Point, e: Point, lo: real, hi: real) returns (s: real)
    requires NonNegative(e) && CrossAxes(h, d, e)
    requires PartAhead(d.x, h.x, e.x, lo) && PartAhead(d.y, h.y, e.y, lo) && PartAhead(d.z, h.z, e.z, lo)
    ensures s >= lo && Fits(d.x, h.x, e.x, s) && Fits(d.y, h.y, e.y, s) && Fits(d.z, h.z, e.z, s)
    ensures (lo <= hi && StartsBefore(d.x, h.x, e.x, hi) && StartsBefore(d.y, h.y, e.y, hi)
             && StartsBefore(d.z, h.z, e.z, hi)) ==> s <= hi
  {
    hide Low, High, Abs, CrossAxis, Fits;
    s := GreatestOf(lo, h.x != 0.0, LowOf(d.x, h.x, e.x), h.y != 0.0, LowOf(d.y, h.y, e.y),
                    h.z != 0.0, LowOf(d.z, h.z, e.z));
    if h.x != 0.0 && h.y != 0.0 { PartsOverlap(h.x, d.x, e.x, h.y, d.y, e.y); }
    if h.y != 0.0 && h.z != 0.0 { PartsOverlap(h.y, d.y, e.y, h.z, d.z, e.z); }
    if h.z != 0.0 && h.x != 0.0 { PartsOverlap(h.z, d.z, e.z, h.x, d.x, e.x); }
    OnAxis(d.x, h.x, e.x, s);
    OnAxis(d.y, h.y, e.y, s);
    OnAxis(d.z, h.z, e.z, s);
  }

  lemma AheadOfOrigin(d: real, h: real, e: real)
    requires e >= 0.0 && !(Abs(d) > e && d * h >= 0.0)
    ensures PartAhead(d, h, e, 0.0)
  {
    if h > 0.0 {
      PartIsNotEmpty(d, h, e);
      if Abs(d) > e && d > 0.0 { ProductPositive(d, h); }
      Between(e - d, h, 0.0);
    } else if h < 0.0 {
      PartIsNotEmpty(d, h, e);
      TurnedAxis(d, h, e);
      if Abs(d) > e && d < 0.0 { ProductPositive(-d, -h); }
      Between(e + d, -h, 0.0);
    }
  }

  lemma WithinSegment(d: real, h: real, e: real)
    requires e >= 0.0 && Abs(d) <= e + Abs(h)
    ensures PartAhead(d, h, e, -1.0) && StartsBefore(d, h, e, 1.0)
  {
    if h > 0.0 {
      PartIsNotEmpty(d, h, e);
      Between(e - d, h, -1.0);
      Between(-e - d, h, 1.0);
    } else if h < 0.0 {
      PartIsNotEmpty(d, h, e);
      TurnedAxis(d, h, e);
      Between(e + d, -h, -1.0);
      Between(-e + d, -h, 1.0);
    }
  }

  lemma InBoxWhenFits(p: Point, h: Point, b: Box, s: real)
    requires var d := p.Minus(b.center);
             && Fits(d.x, h.x, b.extents.x, s) && Fits(d.y, h.y, b.extents.y, s) && Fits(d.z, h.z, b.extents.z, s)
    ensures InBox(p.Plus(h.Times(s)), b)
  {
  }

  // The ray test accepts exactly the boxes that hold a point of the ray.
  lemma RayTestIsExact(r: Ray, b: Box)
    requires NonNegative(b.extents)
    ensures RayBoxAxes(r.dir, r.origin, b.center, b.extents) <==> exists s: real :: s >= 0.0 && InBox(Along(r, s), b)
  {
    if RayBoxAxes(r.dir, r.origin, b.center, b.extents) {
      var d := r.origin.Minus(b.center);
      AheadOfOrigin(d.x, r.dir.x, b.extents.x);
      AheadOfOrigin(d.y, r.dir.y, b.extents.y);
      AheadOfOrigin(d.z, r.dir.z, b.extents.z);
      hide CrossAxes, PartAhead, Fits, InBox, Abs;
      var s := AllOverlap(d, r.dir, b.extents, 0.0, 0.0);
      InBoxWhenFits(r.origin, r.dir, b, s);
      assert InBox(Along(r, s), b);
    }
    forall s: real | s >= 0.0 && InBox(Along(r, s), b) ensures RayBoxAxes(r.dir, r.origin, b.center, b.extents) {
      RayTestNeverRejects(r, b, s);
    }
  }

  // The segment test accepts exactly the boxes that hold a point of the segment m - h .. m + h.
  lemma SegmentTestIsExact(h: Point, m: Point, b: Box)
    requires NonNegative(b.extents)
    ensures SegmentBoxAxes(h, m, b.center, b.extents) <==>
            exists s: real :: -1.0 <= s <= 1.0 && InBox(m.Plus(h.Times(s)), b)
  {
    if SegmentBoxAxes(h, m, b.center, b.extents) {
      var d := m.Minus(b.center);
      WithinSegment(d.x, h.x, b.extents.x);
      WithinSegment(d.y, h.y, b.extents.y);
      WithinSegment(d.z, h.z, b.extents.z);
      hide CrossAxes, PartAhead, Fits, InBox, StartsBefore, Abs;
      var s := AllOverlap(d, h, b.extents, -1.0, 1.0);
      InBoxWhenFits(m, h, b, s);
      assert s <= 1.0 && InBox(m.Plus(h.Times(s)), b);
    }
    forall s: real | -1.0 <= s <= 1.0 && InBox(m.Plus(h.Times(s)), b)
      ensures SegmentBoxAxes(h, m, b.center, b.extents)
    {
      SegmentTestNeverRejects(h, m, b, s);
    }
  }
}
