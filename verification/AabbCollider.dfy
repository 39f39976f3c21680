// Queries with an axis-aligned box, and the cache of a fat box that lets later queries be skipped.
module AabbCollider {
  import opened RealArithmetic
  import opened Geometry
  import opened TriangleBox
  import opened TriangleBoxTest
  import SeparatingAxes
  import TriangleBoxExact
  import opened BoxTree
  import opened FlatTree
  import opened Collider
  import opened VolumeCollider

  // ---- what a query answers

  predicate Hits(b: Box, m: Mesh, p: nat)
    requires m.Valid()
  {
    p < |m.faces| && Overlap(b, m.Tri(p), true)
  }

  function TouchesBox(b: Box, m: Mesh): nat -> bool
    requires m.Valid()
  {
    (p: nat) => Hits(b, m, p)
  }

  // The linear scan for a box.
  function ScanBox(l: seq<nat>, m: Mesh, b: Box, first: bool): seq<nat>
    requires m.Valid()
  {
    Report(first, Accepted(l, TouchesBox(b, m)))
  }

  // A box query's memory: the primitives touched last, the box they were found with, and how much
  // to enlarge the next one.
  datatype Cache = Cache(touched: seq<nat>, fatBox: Box, fatCoeff: real)

  const ZERO_BOX: Box := Box(Point(0.0, 0.0, 0.0), Point(0.0, 0.0, 0.0))

  function Fattened(b: Box, coeff: real): Box { b.(extents := b.extents.Times(coeff)) }

  predicate Inside(b: Box, outer: Box) {
    && outer.center.x - outer.extents.x <= b.center.x - b.extents.x
    && outer.center.y - outer.extents.y <= b.center.y - b.extents.y
    && outer.center.z - outer.extents.z <= b.center.z - b.extents.z
    && b.center.x + b.extents.x <= outer.center.x + outer.extents.x
    && b.center.y + b.extents.y <= outer.center.y + outer.extents.y
    && b.center.z + b.extents.z <= outer.center.z + outer.extents.z
  }

  // The cache alone settles the query.
  predicate FromCache(m: Mesh, b: Box, flags: Flags, c: Cache)
    requires m.Valid()
  {
    && flags.temporalCoherence && c.touched != []
    && (if flags.firstContact then Hits(b, m, c.touched[0]) else Inside(b, c.fatBox))
  }

  // The query runs with an enlarged box that becomes the cached one.
  predicate Refattens(b: Box, flags: Flags, c: Cache) {
    flags.temporalCoherence && !flags.firstContact && !Inside(b, c.fatBox)
  }

  function Answer(l: seq<nat>, m: Mesh, b: Box, flags: Flags, c: Cache): Cache
    requires m.Valid()
  {
    if FromCache(m, b, flags, c) then
      c.(touched := if flags.firstContact then [c.touched[0]] else c.touched)
    else if Refattens(b, flags, c) then
      c.(touched := ScanBox(l, m, Fattened(b, c.fatCoeff), false), fatBox := Fattened(b, c.fatCoeff))
    else
      c.(touched := ScanBox(l, m, b, flags.firstContact))
  }

  // ---- any run of coherent queries for all contacts

  datatype BoxQueryArgs = BoxQueryArgs(box: Box, fatCoeff: real) {
    predicate Sensible() {
      fatCoeff >= 1.0 && box.extents.x >= 0.0 && box.extents.y >= 0.0 && box.extents.z >= 0.0
    }
  }

  const COHERENT: Flags := Flags(false, true, false, false)

  // The cache after a run of queries, oldest first; the user may change the coefficient in between.
  function AfterRun(l: seq<nat>, m: Mesh, run: seq<BoxQueryArgs>, c: Cache): Cache
    requires m.Valid()
    decreases |run|
  {
    if run == [] then c
    else
      var q := run[|run| - 1];
      Answer(l, m, q.box, COHERENT, AfterRun(l, m, run[..|run| - 1], c).(fatCoeff := q.fatCoeff))
  }

  // The list is what the cached box touches; only a cache never filled may hold less.
  ghost predicate Trusted(l: seq<nat>, m: Mesh, c: Cache)
    requires m.Valid()
  {
    c.touched == Accepted(l, TouchesBox(c.fatBox, m)) || (c.touched == [] && c.fatBox == ZERO_BOX)
  }

  // Everything the plain query would report is there, and everything there touches the cached box.
  ghost predicate Sandwiched(l: seq<nat>, m: Mesh, b: Box, c: Cache)
    requires m.Valid()
  {
    && (forall p <- ScanBox(l, m, b, false) :: p in c.touched)
    && (forall p <- c.touched :: p in l && Hits(c.fatBox, m, p))
  }

  lemma InsideIsWithin(b: Box, outer: Box)
    ensures Inside(b, outer) <==> Within(b, outer)
  {
  }

  lemma FattenedHolds(q: BoxQueryArgs)
    requires q.Sensible()
    ensures Within(q.box, Fattened(q.box, q.fatCoeff))
  {
    ProductNonNegative(q.box.extents.x, q.fatCoeff - 1.0);
    ProductNonNegative(q.box.extents.y, q.fatCoeff - 1.0);
    ProductNonNegative(q.box.extents.z, q.fatCoeff - 1.0);
  }

  // The enlarged box is the box scaled from its center by the coefficient.
  lemma FattenedScales(b: Box, k: real, w: Point)
    requires k > 0.0
    ensures InBox(b.center.Plus(w.Times(k)), Fattened(b, k)) <==> InBox(b.center.Plus(w), b)
  {
    ScaledWithin(w.x, b.extents.x, k);
    ScaledWithin(w.y, b.extents.y, k);
    ScaledWithin(w.z, b.extents.z, k);
  }

  lemma ScaledWithin(w: real, e: real, k: real)
    requires k > 0.0
    ensures -(e * k) <= w * k <= e * k <==> -e <= w <= e
  {
    if w > e { ProductPositive(w - e, k); } else { ProductNonNegative(e - w, k); }
    if w < -e { ProductPositive(-e - w, k); } else { ProductNonNegative(w + e, k); }
    assert (w - e) * k == w * k - e * k && (e - w) * k == e * k - w * k;
    assert (-e - w) * k == -(e * k) - w * k && (w + e) * k == w * k + e * k;
  }

  lemma WiderTouchesMore(l: seq<nat>, m: Mesh, b: Box, outer: Box)
    requires m.Valid() && Within(b, outer)
    ensures forall p <- Accepted(l, TouchesBox(b, m)) :: p in Accepted(l, TouchesBox(outer, m))
  {
    hide Overlap, Within;
    forall p <- Accepted(l, TouchesBox(b, m)) ensures p in Accepted(l, TouchesBox(outer, m)) {
      OverlapMonotone(b, outer, m.Tri(p), true);
    }
  }

  lemma OnlyZeroInZero(q: BoxQueryArgs)
    requires q.Sensible() && Inside(q.box, ZERO_BOX)
    ensures q.box == ZERO_BOX
  {
  }

  lemma QueryKeepsTrust(l: seq<nat>, m: Mesh, q: BoxQueryArgs, c: Cache)
    requires m.Valid() && q.Sensible() && q.fatCoeff == c.fatCoeff && Trusted(l, m, c)
    ensures var c' := Answer(l, m, q.box, COHERENT, c); Trusted(l, m, c') && Sandwiched(l, m, q.box, c')
  {
    hide Hits, Fattened, Inside, Within;
    if Inside(q.box, c.fatBox) {
      InsideIsWithin(q.box, c.fatBox);
      WiderTouchesMore(l, m, q.box, c.fatBox);
      if c.touched == [] {
        var found := Accepted(l, TouchesBox(q.box, m));
        if c.fatBox == ZERO_BOX {
          OnlyZeroInZero(q);
        } else {
          assert forall p <- l :: TouchesBox(q.box, m)(p) ==> p in found;
          AcceptedNone(l, TouchesBox(q.box, m));
        }
      }
    } else {
      FattenedHolds(q);
      WiderTouchesMore(l, m, q.box, Fattened(q.box, q.fatCoeff));
    }
  }

  // From a fresh cache on, every answer of every run is right for its box.
  lemma {:induction false} RunsAreSandwiched(l: seq<nat>, m: Mesh, run: seq<BoxQueryArgs>, fatCoeff: real)
    requires m.Valid() && forall q <- run :: q.Sensible()
    ensures var c := AfterRun(l, m, run, Cache([], ZERO_BOX, fatCoeff));
            Trusted(l, m, c) && (run != [] ==> Sandwiched(l, m, run[|run| - 1].box, c))
    decreases |run|
  {
    if run != [] {
      var q := run[|run| - 1];
      RunsAreSandwiched(l, m, run[..|run| - 1], fatCoeff);
      hide Trusted, Sandwiched, Answer, BoxQueryArgs.Sensible;
      var before := AfterRun(l, m, run[..|run| - 1], Cache([], ZERO_BOX, fatCoeff));
      TrustIgnoresCoefficient(l, m, before, q.fatCoeff);
      QueryKeepsTrust(l, m, q, before.(fatCoeff := q.fatCoeff));
    }
  }

  lemma TrustIgnoresCoefficient(l: seq<nat>, m: Mesh, c: Cache, coeff: real)
    requires m.Valid() && Trusted(l, m, c)
    ensures Trusted(l, m, c.(fatCoeff := coeff))
  {
  }

  // The node test accepts exactly the boxes that share a point with the query box.
  lemma BoxesMeetExactly(a: Box, b: Box)
    requires SeparatingAxes.NonNegative(a.extents) && SeparatingAxes.NonNegative(b.extents)
    ensures BoxesMeet(a, b) <==> exists p: Point :: InBox(p, a) && InBox(p, b)
  {
    if BoxesMeet(a, b) {
      var p := Point(Inner(a.center.x, a.extents.x, b.center.x, b.extents.x),
                     Inner(a.center.y, a.extents.y, b.center.y, b.extents.y),
                     Inner(a.center.z, a.extents.z, b.center.z, b.extents.z));
      assert InBox(p, a) && InBox(p, b);
    }
  }

  // The greater of the lower ends of two intervals.
  function Inner(c: real, e: real, d: real, f: real): real { if c - e > d - f then c - e else d - f }

  // The scan reports exactly the triangles of the list that have a point in the box.
  lemma ReportedIsTouching(l: seq<nat>, m: Mesh, b: Box, p: nat)
    requires m.Valid() && p < |m.faces| && SeparatingAxes.NonNegative(b.extents)
    ensures p in ScanBox(l, m, b, false) <==>
            p in l && exists u: real, v: real :: Barycentric(u, v) && InBox(At(m.Tri(p), u, v), b)
  {
    hide Overlap, At, InBox, Barycentric, SeparatingAxes.NonNegative;
    TriangleBoxExact.OverlapIsTouch(b, m.Tri(p));
  }

  // Whatever the cache holds, a plain query and a coherent one for the first contact are right: in
  // first-contact mode one triangle of the list that has a point in the box is reported if and only if
  // there is one.
  lemma AnswerIsRight(l: seq<nat>, m: Mesh, b: Box, flags: Flags, c: Cache)
    requires m.Valid() && (flags.firstContact || !flags.temporalCoherence) && forall p <- c.touched :: p in l
    ensures Answers(flags, l, TouchesBox(b, m), Answer(l, m, b, flags, c).touched)
  {
    hide Hits;
    FirstAnswers(flags, l, TouchesBox(b, m));
    if FromCache(m, b, flags, c) {
      assert c.touched[0] in c.touched;
      KnownAnswers(flags, l, TouchesBox(b, m), c.touched[0]);
    }
  }

  // ---- the query on a tree

  lemma Missed(b: Box, m: Mesh, t: Tree)
    requires Covers(t, m) && !BoxesMeet(b, t.box)
    ensures Accepted(Prims(t), TouchesBox(b, m)) == []
  {
    hide Overlap, BoxesMeet, Encloses;
    forall p <- Prims(t) ensures !TouchesBox(b, m)(p) {
      ApartBoxesSeparate(b, t.box, m.Tri(p), true);
    }
    AcceptedNone(Prims(t), TouchesBox(b, m));
  }

  lemma AllInside(b: Box, m: Mesh, t: Tree)
    requires Covers(t, m) && Within(t.box, b)
    ensures Accepted(Prims(t), TouchesBox(b, m)) == Prims(t)
  {
    hide Overlap, Within, Encloses;
    forall p <- Prims(t) ensures TouchesBox(b, m)(p) {
      ContainedOverlaps(b, t.box, m.Tri(p), true);
    }
    AcceptedAll(Prims(t), TouchesBox(b, m));
  }

  class BoxQuery {
    const volume: Volume
    var fatBox: Box
    var fatCoeff: real
    var mBox: Box
    var mMin: Point
    var mMax: Point

    constructor (volume: Volume)
      ensures this.volume == volume && fatBox == ZERO_BOX && fatCoeff == 1.1
    {
      this.volume := volume;
      fatBox := ZERO_BOX;
      fatCoeff := 1.1;
      mBox := ZERO_BOX;
      mMin, mMax := Point(0.0, 0.0, 0.0), Point(0.0, 0.0, 0.0);
    }

    function CacheNow(): Cache
      reads this, volume
    {
      Cache(volume.mTouchedPrimitives, fatBox, fatCoeff)
    }

    // The early-accept bounds never reach past the box the triangles are tested with.
    ghost predicate Ready()
      reads this
    {
      && volume.mesh.Valid()
      && mBox.center.x - mBox.extents.x <= mMin.x && mMax.x <= mBox.center.x + mBox.extents.x
      && mBox.center.y - mBox.extents.y <= mMin.y && mMax.y <= mBox.center.y + mBox.extents.y
      && mBox.center.z - mBox.extents.z <= mMin.z && mMax.z <= mBox.center.z + mBox.extents.z
    }

    method AABBAABBOverlap(extents: Point, center: Point) returns (overlap: bool)
      modifies volume`mNbVolumeBVTests
      ensures overlap == BoxesMeet(mBox, Box(center, extents))
    {
      volume.mNbVolumeBVTests := volume.mNbVolumeBVTests + 1;
      var tx := mBox.center.x - center.x;
      var ex := extents.x + mBox.extents.x;
      if Abs(tx) > ex { return false; }
      var ty := mBox.center.y - center.y;
      var ey := extents.y + mBox.extents.y;
      if Abs(ty) > ey { return false; }
      var tz := mBox.center.z - center.z;
      var ez := extents.z + mBox.extents.z;
      return !(Abs(tz) > ez);
    }

    predicate AABBContainsBox(bc: Point, be: Point)
      reads this
    {
      && !(mMin.x > bc.x - be.x) && !(mMin.y > bc.y - be.y) && !(mMin.z > bc.z - be.z)
      && !(mMax.x < bc.x + be.x) && !(mMax.y < bc.y + be.y) && !(mMax.z < bc.z + be.z)
    }

    lemma ContainedIsWithin(b: Box)
      requires Ready() && AABBContainsBox(b.center, b.extents)
      ensures Within(b, mBox)
    {
    }

    method TriBoxOverlap(t: Triangle) returns (overlap: bool)
      modifies volume`mNbVolumePrimTests
      ensures overlap == Overlap(mBox, t, true)
    {
      hide Overlap;
      volume.mNbVolumePrimTests := volume.mNbVolumePrimTests + 1;
      overlap := TriangleBoxTest.TriBoxOverlap(t, mBox.center, mBox.extents, true);
    }

    method AabbPrim(prim: nat, temporal: bool)
      requires volume.mesh.Valid() && prim < |volume.mesh.faces|
      modifies volume
      ensures volume.mTouchedPrimitives ==
              if Hits(mBox, volume.mesh, prim) then old(volume.mTouchedPrimitives) + [prim]
                else old(volume.mTouchedPrimitives)
      ensures volume.mFlags ==
              if !Hits(mBox, volume.mesh, prim) then old(volume.mFlags)
              else if temporal then old(volume.mFlags).TemporallyTouched() else old(volume.mFlags).Touched()
    {
      hide Overlap;
      var overlap := TriBoxOverlap(volume.mesh.Tri(prim));
      if overlap {
        volume.mFlags := if temporal then volume.mFlags.TemporallyTouched() else volume.mFlags.Touched();
        volume.mTouchedPrimitives := volume.mTouchedPrimitives + [prim];
      }
    }

    method CollideNode(flat: Flat, node: nat, ghost t: Tree)
      requires Ready() && !volume.mFlags.ContactFound()
      requires flat.Holds(node, t) && Covers(t, volume.mesh)
      modifies volume
      ensures volume.Scanned(Prims(t), TouchesBox(mBox, volume.mesh))
      decreases t
    {
      hide Covers, Prims, BoxesMeet, Hits, Accepted, ScanStep, Report, AABBContainsBox, Ready, Flat.Holds, Flat.At,
           Flat.Points, IsLeafWord, PrimitiveOf;
      HoldsStep(flat, node, t);
      ghost var m := volume.mesh;
      NodeFacts(t, m);
      ghost var hit, touched, flags := TouchesBox(mBox, m), volume.mTouchedPrimitives, volume.mFlags;
      var n := flat.At(node);
      var overlap := AABBAABBOverlap(n.box.extents, n.box.center);
      if !overlap {
        Missed(mBox, m, t);
        StepOverNone(touched, flags, Prims(t), hit);
        return;
      }
      if AABBContainsBox(n.box.center, n.box.extents) {
        ContainedIsWithin(n.box);
        AllInside(mBox, m, t);
        StepOverAll(touched, flags, Prims(t), hit);
        volume.mFlags := volume.mFlags.Touched();
        volume.Dump(flat, node, t);
        return;
      }
      if IsLeafWord(n.data) {
        AabbPrim(PrimitiveOf(n.data), false);
        StepOverOne(touched, flags, t.prim, hit);
      } else {
        CollideNode(flat, n.data, t.pos);
        ghost var touched1, flags1 := volume.mTouchedPrimitives, volume.mFlags;
        if !volume.mFlags.ContactFound() {
          CollideNode(flat, n.data + NODE_SIZE, t.neg);
        }
        StepOverBoth(touched, flags, touched1, flags1, volume.mTouchedPrimitives, volume.mFlags, Prims(t.pos),
                     Prims(t.neg), hit);
      }
    }

    method CollideNoLeafNode(flat: NoLeafFlat, node: nat, ghost t: Tree)
      requires Ready() && !volume.mFlags.ContactFound()
      requires flat.Holds(node, t) && Covers(t, volume.mesh)
      modifies volume
      ensures volume.Scanned(Prims(t), TouchesBox(mBox, volume.mesh))
      decreases t, 0
    {
      hide Covers, Prims, BoxesMeet, Hits, Accepted, ScanStep, Report, AABBContainsBox, Ready, NoLeafFlat.Holds,
           NoLeafFlat.HoldsChild, NoLeafFlat.At, NoLeafFlat.Points, IsLeafWord, PrimitiveOf;
      NoLeafHoldsStep(flat, node, t);
      ghost var m := volume.mesh;
      NodeFacts(t, m);
      ghost var hit, touched, flags := TouchesBox(mBox, m), volume.mTouchedPrimitives, volume.mFlags;
      var n := flat.At(node);
      var overlap := AABBAABBOverlap(n.box.extents, n.box.center);
      if !overlap {
        Missed(mBox, m, t);
        StepOverNone(touched, flags, Prims(t), hit);
        return;
      }
      if AABBContainsBox(n.box.center, n.box.extents) {
        ContainedIsWithin(n.box);
        AllInside(mBox, m, t);
        StepOverAll(touched, flags, Prims(t), hit);
        volume.mFlags := volume.mFlags.Touched();
        volume.DumpNoLeaf(flat, node, t);
        return;
      }
      CollideNoLeafChild(flat, n.data, t.pos);
      ghost var touched1, flags1 := volume.mTouchedPrimitives, volume.mFlags;
      if !volume.mFlags.ContactFound() {
        CollideNoLeafChild(flat, n.data2, t.neg);
      }
      StepOverBoth(touched, flags, touched1, flags1, volume.mTouchedPrimitives, volume.mFlags, Prims(t.pos),
                   Prims(t.neg), hit);
    }

    method CollideNoLeafChild(flat: NoLeafFlat, word: nat, ghost t: Tree)
      requires Ready() && !volume.mFlags.ContactFound()
      requires flat.HoldsChild(word, t) && Covers(t, volume.mesh)
      modifies volume
      ensures volume.Scanned(Prims(t), TouchesBox(mBox, volume.mesh))
      decreases t, 1
    {
      hide Covers, Prims, Hits, Accepted, Ready;
      NodeFacts(t, volume.mesh);
      if IsLeafWord(word) {
        ScanOfOne(t.prim, TouchesBox(mBox, volume.mesh));
        AabbPrim(PrimitiveOf(word), false);
      } else {
        CollideNoLeafNode(flat, word, t);
      }
    }

    // Clears the contact bits, asks the cache, and fattens the box when the cache is to be refilled.
    method InitQuery(box: Box) returns (status: bool)
      requires volume.mesh.Valid()
      requires Refattens(box, volume.mFlags, CacheNow()) ==> BoxQueryArgs(box, fatCoeff).Sensible()
      requires forall p <- volume.mTouchedPrimitives :: p < |volume.mesh.faces|
      modifies this, volume
      ensures status == volume.mFlags.contact && fatCoeff == old(fatCoeff)
      ensures status == FromCache(volume.mesh, box, old(volume.mFlags), old(CacheNow()))
      ensures volume.mFlags == old(volume.mFlags).Cleared().(contact := status, temporalHit := status)
      ensures status ==>
              && fatBox == old(fatBox)
              && volume.mTouchedPrimitives ==
                 if volume.mFlags.firstContact then [old(volume.mTouchedPrimitives)[0]]
                   else old(volume.mTouchedPrimitives)
      ensures !status ==>
              && Ready()
              && mBox == (if Refattens(box, volume.mFlags, old(CacheNow())) then Fattened(box, fatCoeff) else box)
              && fatBox == (if Refattens(box, volume.mFlags, old(CacheNow())) then mBox else old(fatBox))
              && volume.mTouchedPrimitives == []
    {
      hide Hits;
      volume.InitQueryEx();
      mBox := box;
      if volume.mFlags.temporalCoherence {
        if volume.mFlags.firstContact {
          if volume.mTouchedPrimitives != [] {
            var previous := volume.mTouchedPrimitives[0];
            assert previous in volume.mTouchedPrimitives;
            volume.mTouchedPrimitives := [];
            AabbPrim(previous, true);
          }
        } else if Inside(mBox, fatBox) {
          if volume.mTouchedPrimitives != [] {
            volume.mFlags := volume.mFlags.TemporallyTouched();
          }
        } else {
          volume.mTouchedPrimitives := [];
          FattenedHolds(BoxQueryArgs(box, fatCoeff));
          mBox := mBox.(extents := mBox.extents.Times(fatCoeff));
          fatBox := mBox;
        }
      } else {
        volume.mTouchedPrimitives := [];
      }
      if !volume.mFlags.contact {
        mMin := box.center.Minus(box.extents);
        mMax := box.center.Plus(box.extents);
      }
      status := volume.mFlags.contact;
    }

    // A whole query, the box already in model space.
    method Collide(box: Box, flat: Flat, ghost t: Tree)
      requires Refattens(box, volume.mFlags, CacheNow()) ==> BoxQueryArgs(box, fatCoeff).Sensible()
      requires Covers(t, volume.mesh) && flat.Holds(flat.base, t)
      requires forall p <- volume.mTouchedPrimitives :: p in Prims(t)
      modifies this, volume
      ensures CacheNow() == Answer(Prims(t), volume.mesh, box, old(volume.mFlags), old(CacheNow()))
      ensures volume.mFlags == FlagsAfter(volume.mesh, box, old(volume.mFlags), old(CacheNow()),
                                          volume.mTouchedPrimitives)
    {
      hide Covers, Prims, Hits, Accepted, Ready, Inside, Fattened, BoxQueryArgs.Sensible;
      CachedPrims(volume.mesh, t, volume.mTouchedPrimitives);
      var status := InitQuery(box);
      if !status {
        CollideNode(flat, flat.base, t);
      }
    }

    method CollideNoLeaf(box: Box, flat: NoLeafFlat, ghost t: Tree)
      requires Refattens(box, volume.mFlags, CacheNow()) ==> BoxQueryArgs(box, fatCoeff).Sensible()
      requires Covers(t, volume.mesh) && flat.Holds(flat.base, t)
      requires forall p <- volume.mTouchedPrimitives :: p in Prims(t)
      modifies this, volume
      ensures CacheNow() == Answer(Prims(t), volume.mesh, box, old(volume.mFlags), old(CacheNow()))
      ensures volume.mFlags == FlagsAfter(volume.mesh, box, old(volume.mFlags), old(CacheNow()),
                                          volume.mTouchedPrimitives)
    {
      hide Covers, Prims, Hits, Accepted, Ready, Inside, Fattened, BoxQueryArgs.Sensible;
      CachedPrims(volume.mesh, t, volume.mTouchedPrimitives);
      var status := InitQuery(box);
      if !status {
        CollideNoLeafNode(flat, flat.base, t);
      }
    }
  }

  lemma CachedPrims(m: Mesh, t: Tree, touched: seq<nat>)
    requires Covers(t, m) && forall p <- touched :: p in Prims(t)
    ensures m.Valid() && forall p <- touched :: p < |m.faces|
  {
  }

  // The contact bits say whether anything was found and whether the cache found it.
  function FlagsAfter(m: Mesh, b: Box, flags: Flags, c: Cache, found: seq<nat>): Flags
    requires m.Valid()
  {
    flags.Cleared().(contact := found != [], temporalHit := FromCache(m, b, flags, c))
  }
}
