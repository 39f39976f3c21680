// Queries between two trees, either of which may be moved.
module TreeCollider {
  import opened Geometry
  import opened RigidTransforms
  import opened WorldTransforms
  import OrientedBoxes
  import BoxBoxTest
  import TriangleBox
  import TriangleBoxTest
  import opened BoxTree
  import opened FlatTree
  import opened Collider
  import opened PairPruning
  import opened PairScan

  // ---- reporting step by step

  // The pairs added are what is due, or one of them, and the contact bit says if there are any.
  ghost predicate Step(flags: Flags, pairs: seq<(nat, nat)>, due: multiset<(nat, nat)>,
                       flags': Flags, pairs': seq<(nat, nat)>) {
    && pairs <= pairs' && Reported(flags.firstContact, pairs'[|pairs|..], due)
    && flags' == flags.(contact := flags.contact || due != multiset{})
  }

  lemma StepNone(flags: Flags, pairs: seq<(nat, nat)>)
    ensures Step(flags, pairs, multiset{}, flags, pairs)
  {
    assert pairs[|pairs|..] == [];
  }

  lemma StepBoth(flags: Flags, pairs: seq<(nat, nat)>, due: multiset<(nat, nat)>, flags': Flags,
                 pairs': seq<(nat, nat)>,
                 rest: multiset<(nat, nat)>, flags'': Flags, pairs'': seq<(nat, nat)>)
    requires !flags.ContactFound() && !flags'.ContactFound()
    requires Step(flags, pairs, due, flags', pairs') && Step(flags', pairs', rest, flags'', pairs'')
    ensures Step(flags, pairs, due + rest, flags'', pairs'')
  {
    var found, more := pairs'[|pairs|..], pairs''[|pairs'|..];
    assert pairs''[|pairs|..] == found + more;
    ReportedSome(flags.firstContact, found, due);
    ReportedBoth(flags.firstContact, found, due, more, rest);
    assert due + rest == multiset{} <==> due == multiset{} && rest == multiset{} by { EmptySum(due, rest); }
  }

  lemma EmptySum(a: multiset<(nat, nat)>, b: multiset<(nat, nat)>)
    ensures a + b == multiset{} <==> a == multiset{} && b == multiset{}
  {
    assert |a + b| == |a| + |b|;
  }

  // A first contact settles whatever else is due.
  lemma StepEarly(flags: Flags, pairs: seq<(nat, nat)>, due: multiset<(nat, nat)>, flags': Flags,
                  pairs': seq<(nat, nat)>,
                  total: multiset<(nat, nat)>)
    requires !flags.ContactFound() && flags'.ContactFound() && due <= total
    requires Step(flags, pairs, due, flags', pairs')
    ensures Step(flags, pairs, total, flags', pairs')
  {
    var found := pairs'[|pairs|..];
    assert found[0] in found;
  }

  // The pair a first-contact query ended with, to be tried first by the next one.
  class Pair {
    var id0: nat
    var id1: nat

    // As a reset cache holds it.
    constructor ()
      ensures id0 == 0 && id1 == 1
    {
      id0, id1 := 0, 1;
    }
  }

  function Held(cache: Pair?): (nat, nat)
    reads cache
  {
    if cache == null then (0, 0) else (cache.id0, cache.id1)
  }

  class TreeQuery {
    const mesh0: Mesh
    const mesh1: Mesh
    const triTri: TriTest
    var mFlags: Flags
    var mFullBoxBoxTest: bool
    var mFullPrimBoxTest: bool
    var mPairs: seq<(nat, nat)>
    var m0to1: Rigid
    var m1to0: Rigid
    var mAR: Matrix3
    var mLeafIndex: nat
    var mLeafVerts: Triangle
    var mNbBVBVTests: nat
    var mNbPrimPrimTests: nat
    var mNbBVPrimTests: nat

    constructor (mesh0: Mesh, mesh1: Mesh, triTri: TriTest, flags: Flags, fullBoxBox: bool, fullPrimBox: bool)
      ensures this.mesh0 == mesh0 && this.mesh1 == mesh1 && this.triTri == triTri && mFlags == flags && mPairs == []
    {
      this.mesh0, this.mesh1, this.triTri, mFlags := mesh0, mesh1, triTri, flags;
      mFullBoxBoxTest, mFullPrimBoxTest := fullBoxBox, fullPrimBox;
      mPairs := [];
      m0to1, m1to0, mAR := IDENTITY, IDENTITY, IDENTITY.rot;
      mLeafIndex, mLeafVerts := 0, Triangle(Point(0.0, 0.0, 0.0), Point(0.0, 0.0, 0.0), Point(0.0, 0.0, 0.0));
      mNbBVBVTests, mNbPrimPrimTests, mNbBVPrimTests := 0, 0, 0;
    }

    ghost predicate Ready()
      reads `m0to1, `m1to0, `mAR
    {
      && mesh0.Valid() && mesh1.Valid()
      && Inverses(m0to1, m1to0) && mAR == OrientedBoxes.AbsMatrix(m1to0.rot)
    }

    ghost predicate Agreed()
      requires mesh0.Valid() && mesh1.Valid()
      reads `m0to1, `m1to0
    {
      FormsAgree(triTri, mesh0, mesh1, m0to1, m1to0)
    }

    // The box tests of a descent from two nodes lose nothing.
    ghost predicate Kept(a: Tree, b: Tree, inner: bool)
      requires mesh0.Valid() && mesh1.Valid()
      reads `m1to0, `mFullBoxBoxTest
    {
      AllBoxesKept(a, b, Accept(), m1to0, mFullBoxBoxTest, inner)
    }

    // Neither does the very first one, which tries every axis.
    ghost predicate FirstKept(a: Tree, b: Tree)
      requires mesh0.Valid() && mesh1.Valid()
      reads `m1to0, `mNbBVBVTests
    {
      mNbBVBVTests == 0 ==> BoxesKept(a, b, Accept(), m1to0, true)
    }

    // Neither do the triangle-box tests of a fetched leaf.
    ghost predicate Kept0(i: nat, b: Tree)
      requires mesh0.Valid() && mesh1.Valid()
      reads `m0to1, `m1to0, `mFullPrimBoxTest
    {
      i < |mesh0.faces| && Leaf0Kept(i, b, Accept(), Moved(mesh0.Tri(i), m0to1), mFullPrimBoxTest)
    }

    ghost predicate Kept1(a: Tree, j: nat)
      requires mesh0.Valid() && mesh1.Valid()
      reads `m1to0, `mFullPrimBoxTest
    {
      j < |mesh1.faces| && Leaf1Kept(a, j, Accept(), Moved(mesh1.Tri(j), m1to0), mFullPrimBoxTest)
    }

    ghost predicate LeavesKept(a: Tree, b: Tree)
      requires mesh0.Valid() && mesh1.Valid()
      reads `m0to1, `m1to0, `mFullPrimBoxTest
    {
      (forall i <- Prims(a) :: Kept0(i, b)) && (forall j <- Prims(b) :: Kept1(a, j))
    }

    function Accept(): PairTest
      requires mesh0.Valid() && mesh1.Valid()
      reads `m1to0
    {
      Accepts(triTri, mesh0, mesh1, m1to0)
    }

    // Since the given flags and pairs, what is due was reported.
    ghost predicate Since(flags: Flags, pairs: seq<(nat, nat)>, due: multiset<(nat, nat)>)
      reads `mPairs, `mFlags
    {
      Step(flags, pairs, due, mFlags, mPairs)
    }

    ghost function Due(l: seq<nat>, k: seq<nat>): multiset<(nat, nat)>
      requires mesh0.Valid() && mesh1.Valid()
      reads `m1to0
    {
      Pairs(l, k, Accept())
    }

    // The leaf of the first object fetched last, in the second object's space.
    ghost predicate Fetched0(i: nat)
      requires mesh0.Valid()
      reads `mLeafIndex, `mLeafVerts, `m0to1
    {
      i < |mesh0.faces| && mLeafIndex == i && mLeafVerts == Moved(mesh0.Tri(i), m0to1)
    }

    ghost predicate Fetched1(j: nat)
      requires mesh1.Valid()
      reads `mLeafIndex, `mLeafVerts, `m1to0
    {
      j < |mesh1.faces| && mLeafIndex == j && mLeafVerts == Moved(mesh1.Tri(j), m1to0)
    }

    method BoxBoxOverlap(ea: Point, ca: Point, eb: Point, cb: Point) returns (overlap: bool)
      requires mAR == OrientedBoxes.AbsMatrix(m1to0.rot)
      modifies `mNbBVBVTests
      ensures mNbBVBVTests == old(mNbBVBVTests) + 1
      ensures overlap == OrientedBoxes.AxesMeet(m1to0.Apply(cb).Minus(ca), m1to0.rot, ea, eb,
                                                mFullBoxBoxTest || mNbBVBVTests == 1)
    {
      hide OrientedBoxes.AxesMeet, OrientedBoxes.AbsMatrix, Rigid.Apply;
      mNbBVBVTests := mNbBVBVTests + 1;
      overlap := BoxBoxTest.BoxBoxOverlap(ea, ca, eb, cb, m1to0, mAR, mFullBoxBoxTest || mNbBVBVTests == 1);
    }

    method TriBoxOverlap(center: Point, extents: Point) returns (overlap: bool)
      modifies `mNbBVPrimTests
      ensures overlap == TriangleBox.Overlap(Box(center, extents), mLeafVerts, mFullPrimBoxTest)
    {
      hide TriangleBox.Overlap;
      mNbBVPrimTests := mNbBVPrimTests + 1;
      overlap := TriangleBoxTest.TriBoxOverlap(mLeafVerts, center, extents, mFullPrimBoxTest);
    }

    method TriTriOverlap(t: Triangle, s: Triangle) returns (overlap: bool)
      modifies `mNbPrimPrimTests
      ensures overlap == triTri(t, s)
    {
      mNbPrimPrimTests := mNbPrimPrimTests + 1;
      overlap := triTri(t, s);
    }

    // Records one pair.
    method AddPair(i: nat, j: nat)
      modifies `mPairs, `mFlags
      ensures mPairs == old(mPairs) + [(i, j)] && mFlags == old(mFlags).Touched()
    {
      mPairs := mPairs + [(i, j)];
      mFlags := mFlags.Touched();
    }

    lemma OnePairDue(i: nat, j: nat)
      requires mesh0.Valid() && mesh1.Valid()
      ensures Pairs([i], [j], Accept()) == if Accept()(i, j) then multiset{(i, j)} else multiset{}
    {
      PairsOfOne(i, j, Accept());
    }

    method PrimTest(id0: nat, id1: nat)
      requires mesh0.Valid() && mesh1.Valid() && id0 < |mesh0.faces| && id1 < |mesh1.faces|
      modifies `mPairs, `mFlags, `mNbPrimPrimTests
      ensures Since(old(mFlags), old(mPairs), Due([id0], [id1]))
    {
      hide Moved, Pairs;
      OnePairDue(id0, id1);
      var u := Moved(mesh1.Tri(id1), m1to0);
      var overlap := TriTriOverlap(mesh0.Tri(id0), u);
      if overlap {
        AddPair(id0, id1);
      }
      assert mPairs[|old(mPairs)|..] == if overlap then [(id0, id1)] else [];
    }

    method PrimTestTriIndex(id1: nat, ghost i: nat)
      requires Ready() && Agreed() && Fetched0(i) && id1 < |mesh1.faces|
      modifies `mPairs, `mFlags, `mNbPrimPrimTests
      ensures Since(old(mFlags), old(mPairs), Due([i], [id1]))
    {
      hide Moved, Pairs, Inverses, OrientedBoxes.AbsMatrix;
      OnePairDue(i, id1);
      var overlap := TriTriOverlap(mLeafVerts, mesh1.Tri(id1));
      if overlap {
        AddPair(mLeafIndex, id1);
      }
      assert mPairs[|old(mPairs)|..] == if overlap then [(i, id1)] else [];
    }

    method PrimTestIndexTri(id0: nat, ghost j: nat)
      requires Ready() && Agreed() && Fetched1(j) && id0 < |mesh0.faces|
      modifies `mPairs, `mFlags, `mNbPrimPrimTests
      ensures Since(old(mFlags), old(mPairs), Due([id0], [j]))
    {
      hide Moved, Pairs, Inverses, OrientedBoxes.AbsMatrix;
      OnePairDue(id0, j);
      var overlap := TriTriOverlap(mLeafVerts, mesh0.Tri(id0));
      if overlap {
        AddPair(id0, mLeafIndex);
      }
      assert mPairs[|old(mPairs)|..] == if overlap then [(id0, j)] else [];
    }

    // Fetches a leaf and moves it into the other object's space.
    method FetchLeaf0(i: nat)
      requires mesh0.Valid() && i < |mesh0.faces|
      modifies `mLeafIndex, `mLeafVerts
      ensures Fetched0(i)
    {
      mLeafIndex := i;
      var t := mesh0.Tri(i);
      mLeafVerts := Triangle(m0to1.Apply(t.v0), m0to1.Apply(t.v1), m0to1.Apply(t.v2));
    }

    method FetchLeaf1(j: nat)
      requires mesh1.Valid() && j < |mesh1.faces|
      modifies `mLeafIndex, `mLeafVerts
      ensures Fetched1(j)
    {
      mLeafIndex := j;
      var t := mesh1.Tri(j);
      mLeafVerts := Triangle(m1to0.Apply(t.v0), m1to0.Apply(t.v1), m1to0.Apply(t.v2));
    }

    // ---- what the prune tests skip is never due

    lemma NothingDue(a: Tree, b: Tree, full: bool)
      requires mesh0.Valid() && mesh1.Valid() && BoxesKept(a, b, Accept(), m1to0, full)
      requires !OrientedBoxes.AxesMeet(m1to0.Apply(b.box.center).Minus(a.box.center), m1to0.rot, a.box.extents,
                                       b.box.extents, full)
      ensures Due(Prims(a), Prims(b)) == multiset{}
    {
      hide OrientedBoxes.AxesMeet, Rigid.Apply, Pairs;
      PairsOfNone(Prims(a), Prims(b), Accept());
    }

    lemma NothingDueForLeaf0(i: nat, b: Tree)
      requires Ready() && Fetched0(i) && Kept0(i, b) && b.Node?
               && !TriangleBox.Overlap(b.box, mLeafVerts, mFullPrimBoxTest)
      ensures Due([i], Prims(b)) == multiset{}
    {
      hide TriangleBox.Overlap, Moved, Pairs;
      assert Below(b, b);
      PairsOfNone([i], Prims(b), Accept());
    }

    lemma NothingDueForLeaf1(j: nat, a: Tree)
      requires Ready() && Fetched1(j) && Kept1(a, j) && a.Node?
               && !TriangleBox.Overlap(a.box, mLeafVerts, mFullPrimBoxTest)
      ensures Due(Prims(a), [j]) == multiset{}
    {
      hide TriangleBox.Overlap, Moved, Pairs;
      assert Below(a, a);
      PairsOfNone(Prims(a), [j], Accept());
    }

    // What holds of two nodes holds of their children.
    lemma KeptBelow(a: Tree, b: Tree, x: Tree, y: Tree, inner: bool)
      requires mesh0.Valid() && mesh1.Valid() && Kept(a, b, inner)
      requires x == a || (a.Node? && (x == a.pos || x == a.neg))
      requires y == b || (b.Node? && (y == b.pos || y == b.neg))
      ensures Kept(x, y, inner)
    {
      AllBoxesKeptBelow(a, b, x, y, Accept(), m1to0, mFullBoxBoxTest, inner);
    }

    lemma Kept0Below(i: nat, b: Tree)
      requires mesh0.Valid() && mesh1.Valid() && b.Node? && Kept0(i, b)
      ensures Kept0(i, b.pos) && Kept0(i, b.neg)
    {
      hide TriangleBox.Overlap, Moved, SomePair;
    }

    lemma Kept1Below(a: Tree, j: nat)
      requires mesh0.Valid() && mesh1.Valid() && a.Node? && Kept1(a, j)
      ensures Kept1(a.pos, j) && Kept1(a.neg, j)
    {
      hide TriangleBox.Overlap, Moved, SomePair;
    }

    lemma LeavesKeptFirst(a: Tree, b: Tree)
      requires mesh0.Valid() && mesh1.Valid() && a.Node? && LeavesKept(a, b)
      ensures LeavesKept(a.pos, b) && LeavesKept(a.neg, b)
    {
      hide Kept0, Kept1;
      forall j <- Prims(b) ensures Kept1(a.pos, j) && Kept1(a.neg, j) {
        Kept1Below(a, j);
      }
    }

    lemma LeavesKeptSecond(a: Tree, b: Tree)
      requires mesh0.Valid() && mesh1.Valid() && b.Node? && LeavesKept(a, b)
      ensures LeavesKept(a, b.pos) && LeavesKept(a, b.neg)
    {
      hide Kept0, Kept1;
      forall i <- Prims(a) ensures Kept0(i, b.pos) && Kept0(i, b.neg) {
        Kept0Below(i, b);
      }
    }

    // The box test just made was one of those that lose nothing.
    lemma TestKept(a: Tree, b: Tree, inner: bool)
      requires mesh0.Valid() && mesh1.Valid() && (inner ==> a.Node? && b.Node?) && Kept(a, b, inner)
      requires mNbBVBVTests == 1 ==> BoxesKept(a, b, Accept(), m1to0, true)
      ensures BoxesKept(a, b, Accept(), m1to0, mFullBoxBoxTest || mNbBVBVTests == 1)
    {
      hide BoxesKept;
      assert Below(a, a) && Below(b, b);
    }

    lemma DueSplitsFirst(l: seq<nat>, l': seq<nat>, k: seq<nat>)
      requires mesh0.Valid() && mesh1.Valid()
      ensures Due(l + l', k) == Due(l, k) + Due(l', k)
    {
      PairsSplitFirst(l, l', k, Accept());
    }

    lemma DueSplitsSecond(l: seq<nat>, k: seq<nat>, k': seq<nat>)
      requires mesh0.Valid() && mesh1.Valid()
      ensures Due(l, k + k') == Due(l, k) + Due(l, k')
    {
      PairsSplitSecond(l, k, k', Accept());
    }

    // The box test of two nodes: a rejected pair of nodes has no pair that is due.
    method NodesOverlap(boxA: Box, boxB: Box, inner: bool, ghost a: Tree, ghost b: Tree) returns (overlap: bool)
      requires Ready() && Kept(a, b, inner) && FirstKept(a, b)
      requires boxA == a.box && boxB == b.box && (inner ==> a.Node? && b.Node?)
      modifies `mNbBVBVTests
      ensures mNbBVBVTests != 0
      ensures !overlap ==> Due(Prims(a), Prims(b)) == multiset{}
    {
      hide Inverses, AllBoxesKept, BoxesKept, Due, OrientedBoxes.AbsMatrix, OrientedBoxes.AxesMeet, Rigid.Apply;
      overlap := BoxBoxOverlap(boxA.extents, boxA.center, boxB.extents, boxB.center);
      TestKept(a, b, inner);
      if !overlap {
        NothingDue(a, b, mFullBoxBoxTest || mNbBVBVTests == 1);
      }
    }

    // ---- trees with leaves: both sides are descended at once, negative children first

    method CollideNodes(flat0: Flat, flat1: Flat, b0: nat, b1: nat, ghost a: Tree, ghost b: Tree)
      requires Ready() && Kept(a, b, false) && FirstKept(a, b) && !mFlags.ContactFound()
      requires flat0.Holds(b0, a) && Covers(a, mesh0) && flat1.Holds(b1, b) && Covers(b, mesh1)
      modifies `mPairs, `mFlags, `mNbBVBVTests, `mNbPrimPrimTests
      ensures mNbBVBVTests != 0 && Since(old(mFlags), old(mPairs), Due(Prims(a), Prims(b)))
      decreases a, b, 1
    {
      hide Ready, Kept, BoxesKept, Covers, Prims, Due, Accept, Step, Rigid.Apply, Flat.Holds, Flat.At, Flat.Points,
           IsLeafWord, PrimitiveOf;
      HoldsStep(flat0, b0, a);
      HoldsStep(flat1, b1, b);
      ReadyFacts();
      NodeFacts(a, mesh0);
      NodeFacts(b, mesh1);
      ghost var flags, pairs, total := mFlags, mPairs, Due(Prims(a), Prims(b));
      var n0, n1 := flat0.At(b0), flat1.At(b1);
      var overlap := NodesOverlap(n0.box, n1.box, false, a, b);
      if !overlap {
        StepNone(flags, pairs);
        return;
      }
      if IsLeafWord(n0.data) {
        if IsLeafWord(n1.data) {
          PrimTest(PrimitiveOf(n0.data), PrimitiveOf(n1.data));
        } else {
          DueSplitsSecond(Prims(a), Prims(b.pos), Prims(b.neg));
          KeptBelow(a, b, a, b.neg, false);
          CollideNodes(flat0, flat1, b0, n1.data + NODE_SIZE, a, b.neg);
          ghost var f1, p1 := mFlags, mPairs;
          if mFlags.ContactFound() {
            StepEarly(flags, pairs, Due(Prims(a), Prims(b.neg)), f1, p1, total);
            return;
          }
          KeptBelow(a, b, a, b.pos, false);
          CollideNodes(flat0, flat1, b0, n1.data, a, b.pos);
          StepBoth(flags, pairs, Due(Prims(a), Prims(b.neg)), f1, p1, Due(Prims(a), Prims(b.pos)), mFlags, mPairs);
          Swapped(total, Due(Prims(a), Prims(b.pos)), Due(Prims(a), Prims(b.neg)));
        }
      } else if IsLeafWord(n1.data) {
        DueSplitsFirst(Prims(a.pos), Prims(a.neg), Prims(b));
        KeptBelow(a, b, a.neg, b, false);
        CollideNodes(flat0, flat1, n0.data + NODE_SIZE, b1, a.neg, b);
        ghost var f1, p1 := mFlags, mPairs;
        if mFlags.ContactFound() {
          StepEarly(flags, pairs, Due(Prims(a.neg), Prims(b)), f1, p1, total);
          return;
        }
        KeptBelow(a, b, a.pos, b, false);
        CollideNodes(flat0, flat1, n0.data, b1, a.pos, b);
        StepBoth(flags, pairs, Due(Prims(a.neg), Prims(b)), f1, p1, Due(Prims(a.pos), Prims(b)), mFlags, mPairs);
        Swapped(total, Due(Prims(a.pos), Prims(b)), Due(Prims(a.neg), Prims(b)));
      } else {
        CollideFour(flat0, flat1, n0.data, n1.data, a, b);
      }
    }

    // The four pairs of children, both negative ones first.
    method CollideFour(flat0: Flat, flat1: Flat, pos0: nat, pos1: nat, ghost a: Tree, ghost b: Tree)
      requires Ready() && Kept(a, b, false) && mNbBVBVTests != 0 && !mFlags.ContactFound() && a.Node? && b.Node?
      requires flat0.Holds(pos0, a.pos) && flat0.Holds(pos0 + NODE_SIZE, a.neg) && Covers(a, mesh0)
      requires flat1.Holds(pos1, b.pos) && flat1.Holds(pos1 + NODE_SIZE, b.neg) && Covers(b, mesh1)
      modifies `mPairs, `mFlags, `mNbBVBVTests, `mNbPrimPrimTests
      ensures mNbBVBVTests != 0 && Since(old(mFlags), old(mPairs), Due(Prims(a), Prims(b)))
      decreases a, b, 0
    {
      hide Ready, Kept, BoxesKept, Covers, Prims, Due, Accept, Step, Flat.Holds;
      ReadyFacts();
      NodeFacts(a, mesh0);
      NodeFacts(b, mesh1);
      ghost var flags, pairs, total := mFlags, mPairs, Due(Prims(a), Prims(b));
      ghost var nn, np := Due(Prims(a.neg), Prims(b.neg)), Due(Prims(a.neg), Prims(b.pos));
      ghost var pn, pp := Due(Prims(a.pos), Prims(b.neg)), Due(Prims(a.pos), Prims(b.pos));
      DueSplitsFirst(Prims(a.pos), Prims(a.neg), Prims(b));
      DueSplitsSecond(Prims(a.pos), Prims(b.pos), Prims(b.neg));
      DueSplitsSecond(Prims(a.neg), Prims(b.pos), Prims(b.neg));
      Quarters(total, nn, np, pn, pp);
      KeptBelow(a, b, a.neg, b.neg, false);
      CollideNodes(flat0, flat1, pos0 + NODE_SIZE, pos1 + NODE_SIZE, a.neg, b.neg);
      ghost var f1, p1 := mFlags, mPairs;
      if mFlags.ContactFound() {
        StepEarly(flags, pairs, nn, f1, p1, total);
        return;
      }
      KeptBelow(a, b, a.neg, b.pos, false);
      CollideNodes(flat0, flat1, pos0 + NODE_SIZE, pos1, a.neg, b.pos);
      ghost var f2, p2 := mFlags, mPairs;
      StepBoth(flags, pairs, nn, f1, p1, np, f2, p2);
      if mFlags.ContactFound() {
        StepEarly(flags, pairs, nn + np, f2, p2, total);
        return;
      }
      KeptBelow(a, b, a.pos, b.neg, false);
      CollideNodes(flat0, flat1, pos0, pos1 + NODE_SIZE, a.pos, b.neg);
      ghost var f3, p3 := mFlags, mPairs;
      StepBoth(flags, pairs, nn + np, f2, p2, pn, f3, p3);
      if mFlags.ContactFound() {
        StepEarly(flags, pairs, nn + np + pn, f3, p3, total);
        return;
      }
      KeptBelow(a, b, a.pos, b.pos, false);
      CollideNodes(flat0, flat1, pos0, pos1, a.pos, b.pos);
      StepBoth(flags, pairs, nn + np + pn, f3, p3, pp, mFlags, mPairs);
    }

    // ---- trees without leaves: the leaf fetched last stays in place while the other tree is descended

    // A leaf of the first object against a child word of the second tree.
    method CollideTriChild(flat: NoLeafFlat, word: nat, ghost i: nat, ghost b: Tree)
      requires Ready() && Agreed() && Fetched0(i) && Kept0(i, b) && !mFlags.ContactFound()
      requires flat.HoldsChild(word, b) && Covers(b, mesh1)
      modifies `mPairs, `mFlags, `mNbBVPrimTests, `mNbPrimPrimTests
      ensures Since(old(mFlags), old(mPairs), Due([i], Prims(b)))
      decreases b, 1
    {
      hide Ready, Agreed, Kept0, Covers, Prims, Due, Accept, Step, Fetched0;
      ReadyFacts();
      NodeFacts(b, mesh1);
      if IsLeafWord(word) {
        PrimTestTriIndex(PrimitiveOf(word), i);
      } else {
        CollideTriBox(flat, word, i, b);
      }
    }

    method CollideTriBox(flat: NoLeafFlat, node: nat, ghost i: nat, ghost b: Tree)
      requires Ready() && Agreed() && Fetched0(i) && Kept0(i, b) && !mFlags.ContactFound()
      requires flat.Holds(node, b) && Covers(b, mesh1)
      modifies `mPairs, `mFlags, `mNbBVPrimTests, `mNbPrimPrimTests
      ensures Since(old(mFlags), old(mPairs), Due([i], Prims(b)))
      decreases b, 0
    {
      hide Ready, Agreed, Kept0, Covers, Prims, Due, Accept, Step, TriangleBox.Overlap, Fetched0;
      ReadyFacts();
      NodeFacts(b, mesh1);
      ghost var flags, pairs, total := mFlags, mPairs, Due([i], Prims(b));
      var n := flat.At(node);
      var overlap := TriBoxOverlap(n.box.center, n.box.extents);
      if !overlap {
        NothingDueForLeaf0(i, b);
        StepNone(flags, pairs);
        return;
      }
      Kept0Below(i, b);
      DueSplitsSecond([i], Prims(b.pos), Prims(b.neg));
      ghost var first, second := Due([i], Prims(b.pos)), Due([i], Prims(b.neg));
      CollideTriChild(flat, n.data, i, b.pos);
      ghost var f1, p1 := mFlags, mPairs;
      if mFlags.ContactFound() {
        StepEarly(flags, pairs, first, f1, p1, total);
        return;
      }
      CollideTriChild(flat, n.data2, i, b.neg);
      StepBoth(flags, pairs, first, f1, p1, second, mFlags, mPairs);
    }

    // A leaf of the second object against a child word of the first tree.
    method CollideChildTri(flat: NoLeafFlat, word: nat, ghost a: Tree, ghost j: nat)
      requires Ready() && Agreed() && Fetched1(j) && Kept1(a, j) && !mFlags.ContactFound()
      requires flat.HoldsChild(word, a) && Covers(a, mesh0)
      modifies `mPairs, `mFlags, `mNbBVPrimTests, `mNbPrimPrimTests
      ensures Since(old(mFlags), old(mPairs), Due(Prims(a), [j]))
      decreases a, 1
    {
      hide Ready, Agreed, Kept1, Covers, Prims, Due, Accept, Step, Fetched1;
      ReadyFacts();
      NodeFacts(a, mesh0);
      if IsLeafWord(word) {
        PrimTestIndexTri(PrimitiveOf(word), j);
      } else {
        CollideBoxTri(flat, word, a, j);
      }
    }

    method CollideBoxTri(flat: NoLeafFlat, node: nat, ghost a: Tree, ghost j: nat)
      requires Ready() && Agreed() && Fetched1(j) && Kept1(a, j) && !mFlags.ContactFound()
      requires flat.Holds(node, a) && Covers(a, mesh0)
      modifies `mPairs, `mFlags, `mNbBVPrimTests, `mNbPrimPrimTests
      ensures Since(old(mFlags), old(mPairs), Due(Prims(a), [j]))
      decreases a, 0
    {
      hide Ready, Agreed, Kept1, Covers, Prims, Due, Accept, Step, TriangleBox.Overlap, Fetched1;
      ReadyFacts();
      NodeFacts(a, mesh0);
      ghost var flags, pairs, total := mFlags, mPairs, Due(Prims(a), [j]);
      var n := flat.At(node);
      var overlap := TriBoxOverlap(n.box.center, n.box.extents);
      if !overlap {
        NothingDueForLeaf1(j, a);
        StepNone(flags, pairs);
        return;
      }
      Kept1Below(a, j);
      DueSplitsFirst(Prims(a.pos), Prims(a.neg), [j]);
      ghost var first, second := Due(Prims(a.pos), [j]), Due(Prims(a.neg), [j]);
      CollideChildTri(flat, n.data, a.pos, j);
      ghost var f1, p1 := mFlags, mPairs;
      if mFlags.ContactFound() {
        StepEarly(flags, pairs, first, f1, p1, total);
        return;
      }
      CollideChildTri(flat, n.data2, a.neg, j);
      StepBoth(flags, pairs, first, f1, p1, second, mFlags, mPairs);
    }

    // One child of the first tree, a node, against one child of the second.
    method CollideQuarter(flat0: NoLeafFlat, flat1: NoLeafFlat, word0: nat, word1: nat, ghost a: Tree, ghost b: Tree)
      requires Ready() && Agreed() && Kept(a, b, true) && LeavesKept(a, b) && mNbBVBVTests != 0
               && !mFlags.ContactFound()
      requires flat0.Holds(word0, a) && Covers(a, mesh0) && flat1.HoldsChild(word1, b) && Covers(b, mesh1)
      modifies `mPairs, `mFlags, `mLeafIndex, `mLeafVerts, `mNbBVBVTests, `mNbBVPrimTests, `mNbPrimPrimTests
      ensures mNbBVBVTests != 0 && Since(old(mFlags), old(mPairs), Due(Prims(a), Prims(b)))
      decreases a, b, 1
    {
      hide Ready, Agreed, Kept, BoxesKept, Kept1, Covers, Prims, Due, Accept, Step, Fetched1;
      ReadyFacts();
      NodeFacts(b, mesh1);
      if IsLeafWord(word1) {
        FetchLeaf1(PrimitiveOf(word1));
        CollideBoxTri(flat0, word0, a, b.prim);
      } else {
        CollideNoLeafNodes(flat0, flat1, word0, word1, a, b);
      }
    }

    // One child of the first tree against both children of the second.
    method CollideHalf(flat0: NoLeafFlat, flat1: NoLeafFlat, word0: nat, b1: nat, ghost a: Tree, ghost b: Tree)
      requires Ready() && Agreed() && Kept(a, b, true) && LeavesKept(a, b) && mNbBVBVTests != 0
               && !mFlags.ContactFound()
      requires flat0.HoldsChild(word0, a) && Covers(a, mesh0) && flat1.Holds(b1, b) && Covers(b, mesh1)
      modifies `mPairs, `mFlags, `mLeafIndex, `mLeafVerts, `mNbBVBVTests, `mNbBVPrimTests, `mNbPrimPrimTests
      ensures mNbBVBVTests != 0 && Since(old(mFlags), old(mPairs), Due(Prims(a), Prims(b)))
      decreases a, b, 2
    {
      hide Ready, Agreed, Kept, Kept0, Covers, Prims, Due, Accept, Step, Fetched0;
      ReadyFacts();
      NodeFacts(a, mesh0);
      NodeFacts(b, mesh1);
      ghost var flags, pairs, total := mFlags, mPairs, Due(Prims(a), Prims(b));
      LeavesKeptSecond(a, b);
      DueSplitsSecond(Prims(a), Prims(b.pos), Prims(b.neg));
      ghost var first, second := Due(Prims(a), Prims(b.pos)), Due(Prims(a), Prims(b.neg));
      var n1 := flat1.At(b1);
      if IsLeafWord(word0) {
        FetchLeaf0(PrimitiveOf(word0));
        CollideTriChild(flat1, n1.data, a.prim, b.pos);
      } else {
        KeptBelow(a, b, a, b.pos, true);
        CollideQuarter(flat0, flat1, word0, n1.data, a, b.pos);
      }
      ghost var f1, p1 := mFlags, mPairs;
      if mFlags.ContactFound() {
        StepEarly(flags, pairs, first, f1, p1, total);
        return;
      }
      if IsLeafWord(word0) {
        CollideTriChild(flat1, n1.data2, a.prim, b.neg);
      } else {
        KeptBelow(a, b, a, b.neg, true);
        CollideQuarter(flat0, flat1, word0, n1.data2, a, b.neg);
      }
      StepBoth(flags, pairs, first, f1, p1, second, mFlags, mPairs);
    }

    method CollideNoLeafNodes(flat0: NoLeafFlat, flat1: NoLeafFlat, b0: nat, b1: nat, ghost a: Tree, ghost b: Tree)
      requires Ready() && Agreed() && Kept(a, b, true) && FirstKept(a, b) && LeavesKept(a, b) && !mFlags.ContactFound()
      requires flat0.Holds(b0, a) && Covers(a, mesh0) && flat1.Holds(b1, b) && Covers(b, mesh1)
      modifies `mPairs, `mFlags, `mLeafIndex, `mLeafVerts, `mNbBVBVTests, `mNbBVPrimTests, `mNbPrimPrimTests
      ensures mNbBVBVTests != 0 && Since(old(mFlags), old(mPairs), Due(Prims(a), Prims(b)))
      decreases a, b, 0
    {
      hide Ready, Agreed, Kept, BoxesKept, LeavesKept, Covers, Prims, Due, Accept, Step, Rigid.Apply;
      ReadyFacts();
      NodeFacts(a, mesh0);
      ghost var flags, pairs, total := mFlags, mPairs, Due(Prims(a), Prims(b));
      var n0, n1 := flat0.At(b0), flat1.At(b1);
      var overlap := NodesOverlap(n0.box, n1.box, true, a, b);
      if !overlap {
        StepNone(flags, pairs);
        return;
      }
      LeavesKeptFirst(a, b);
      DueSplitsFirst(Prims(a.pos), Prims(a.neg), Prims(b));
      ghost var first, second := Due(Prims(a.pos), Prims(b)), Due(Prims(a.neg), Prims(b));
      KeptBelow(a, b, a.pos, b, true);
      CollideHalf(flat0, flat1, n0.data, b1, a.pos, b);
      ghost var f1, p1 := mFlags, mPairs;
      if mFlags.ContactFound() {
        StepEarly(flags, pairs, first, f1, p1, total);
        return;
      }
      KeptBelow(a, b, a.neg, b, true);
      CollideHalf(flat0, flat1, n0.data2, b1, a.neg, b);
      StepBoth(flags, pairs, first, f1, p1, second, mFlags, mPairs);
    }

    // ---- whole queries

    ghost predicate Placed(world0: World, world1: World) {
      mesh0.Valid() && mesh1.Valid() && world0.Value().rot.Rotation() && world1.Value().rot.Rotation()
    }

    // The leaf test's answers for objects placed in the world.
    function AcceptBetween(world0: World, world1: World): PairTest
      requires Placed(world0, world1)
    {
      Accepts(triTri, mesh0, mesh1, Between(world1, world0))
    }

    // The box tests of a whole query lose nothing.
    ghost predicate Sound(a: Tree, b: Tree, world0: World, world1: World)
      requires Placed(world0, world1)
      reads `mFullBoxBoxTest
    {
      var accept, from1to0 := AcceptBetween(world0, world1), Between(world1, world0);
      && BoxesKept(a, b, accept, from1to0, true)
      && AllBoxesKept(a, b, accept, from1to0, mFullBoxBoxTest, false)
    }

    // Without leaf nodes only inner boxes are tested, but also against fetched leaves, and in three forms.
    ghost predicate SoundNoLeaf(a: Tree, b: Tree, world0: World, world1: World)
      requires Placed(world0, world1)
      reads `mFullBoxBoxTest, `mFullPrimBoxTest
    {
      var accept, from0to1, from1to0 := AcceptBetween(world0, world1), Between(world0, world1), Between(world1, world0);
      && FormsAgree(triTri, mesh0, mesh1, from0to1, from1to0)
      && BoxesKept(a, b, accept, from1to0, true)
      && AllBoxesKept(a, b, accept, from1to0, mFullBoxBoxTest, true)
      && (forall i <- Prims(a) ::
            i < |mesh0.faces| && Leaf0Kept(i, b, accept, Moved(mesh0.Tri(i), from0to1), mFullPrimBoxTest))
      && (forall j <- Prims(b) ::
            j < |mesh1.faces| && Leaf1Kept(a, j, accept, Moved(mesh1.Tri(j), from1to0), mFullPrimBoxTest))
    }

    // A test that accepts only triangles with a common point never loses a pair, whatever the settings.
    lemma MeetingIsSound(a: Tree, b: Tree, world0: World, world1: World)
      requires Covers(a, mesh0) && Covers(b, mesh1) && Placed(world0, world1)
      requires OnlyMeeting(triTri, mesh0, mesh1, Between(world1, world0))
      ensures Sound(a, b, world0, world1)
      ensures Invariant(triTri) ==> SoundNoLeaf(a, b, world0, world1)
    {
      hide Covers, BoxesKept, AllBoxesKept, Leaf0Kept, Leaf1Kept, OnlyMeeting, Invariant, FormsAgree, Between;
      hide Matrix3.Rotation, Rigid.Apply, Moved;
      var from0to1, from1to0 := Between(world0, world1), Between(world1, world0);
      BetweenFacts(world0, world1);
      assert Inverses(from0to1, from1to0);
      MeetingBoxesKept(a, b, triTri, mesh0, mesh1, from1to0, true);
      MeetingAllBoxesKept(a, b, triTri, mesh0, mesh1, from1to0, mFullBoxBoxTest, false);
      MeetingAllBoxesKept(a, b, triTri, mesh0, mesh1, from1to0, mFullBoxBoxTest, true);
      PrimsInRange(a, mesh0);
      PrimsInRange(b, mesh1);
      hide Prims, Inverses;
      forall i <- Prims(a)
        ensures Leaf0Kept(i, b, AcceptBetween(world0, world1), Moved(mesh0.Tri(i), from0to1), mFullPrimBoxTest)
      {
        MeetingLeaf0Kept(i, b, triTri, mesh0, mesh1, from0to1, from1to0, mFullPrimBoxTest);
      }
      forall j <- Prims(b)
        ensures Leaf1Kept(a, j, AcceptBetween(world0, world1), Moved(mesh1.Tri(j), from1to0), mFullPrimBoxTest)
      {
        MeetingLeaf1Kept(a, j, triTri, mesh0, mesh1, from1to0, mFullPrimBoxTest);
      }
      if Invariant(triTri) {
        InvariantFormsAgree(triTri, mesh0, mesh1, from0to1, from1to0);
      }
    }

    // The exact test never loses a pair.
    lemma ExactIsSound(a: Tree, b: Tree, world0: World, world1: World)
      requires Covers(a, mesh0) && Covers(b, mesh1) && triTri == MeetTest() && Placed(world0, world1)
      ensures Sound(a, b, world0, world1) && SoundNoLeaf(a, b, world0, world1)
    {
      hide Covers, Sound, SoundNoLeaf, Invariant, Between, Meet, Moved, Matrix3.Rotation, World.Value;
      MeetIsInvariant();
      assert OnlyMeeting(triTri, mesh0, mesh1, Between(world1, world0));
      MeetingIsSound(a, b, world0, world1);
    }

    method InitQuery(world0: World, world1: World)
      requires Placed(world0, world1)
      modifies this
      ensures Ready() && m0to1 == Between(world0, world1) && m1to0 == Between(world1, world0)
      ensures mPairs == [] && mFlags == old(mFlags).Cleared() && mNbBVBVTests == 0
      ensures mFullBoxBoxTest == old(mFullBoxBoxTest) && mFullPrimBoxTest == old(mFullPrimBoxTest)
    {
      hide Matrix3.Rotation, Rigid.Apply, Between;
      mFlags := mFlags.Cleared();
      mNbBVBVTests := 0;
      mNbPrimPrimTests := 0;
      mNbBVPrimTests := 0;
      mPairs := [];
      m0to1, m1to0 := BetweenWorlds(world0, world1);
      mAR := OrientedBoxes.AbsMatrix(m1to0.rot);
    }

    // The cached pair is tried only when the first contact is all that is wanted.
    predicate Tries(cache: Pair?)
      reads `mFlags
    {
      cache != null && mFlags.temporalCoherence && mFlags.firstContact
    }

    method CheckTemporalCoherence(cache: Pair?) returns (found: bool)
      requires Ready() && mPairs == [] && !mFlags.contact
      requires Tries(cache) ==> cache.id0 < |mesh0.faces| && cache.id1 < |mesh1.faces|
      modifies `mPairs, `mFlags, `mNbPrimPrimTests
      ensures found == (old(Tries(cache)) && Accept()(Held(cache).0, Held(cache).1))
      ensures mFlags == old(mFlags).(contact := found) && mPairs == if found then [Held(cache)] else []
    {
      hide Pairs, OrientedBoxes.AbsMatrix, Inverses;
      if cache == null {
        return false;
      }
      if mFlags.temporalCoherence && mFlags.firstContact {
        OnePairDue(cache.id0, cache.id1);
        PrimTest(cache.id0, cache.id1);
        OnlyPair(mPairs, (cache.id0, cache.id1), Accept()(cache.id0, cache.id1));
        if mFlags.contact {
          return true;
        }
      }
      return false;
    }

    // Any contact is remembered by its first pair.
    method UpdateCache(cache: Pair?)
      requires mFlags.contact ==> mPairs != []
      modifies cache
      ensures cache != null ==> Held(cache) == if mFlags.contact then mPairs[0] else old(Held(cache))
    {
      if cache != null && mFlags.contact {
        cache.id0 := mPairs[0].0;
        cache.id1 := mPairs[0].1;
      }
    }

    // What a whole query leaves: the cached pair alone if it was tried and is still accepted, else
    // what is due. The contact bit is right in either case.
    ghost predicate Answered(l: seq<nat>, k: seq<nat>, accept: PairTest, flags: Flags, tried: bool, held: (nat, nat))
      reads `mPairs, `mFlags
    {
      && mFlags == flags.Cleared().(contact := Pairs(l, k, accept) != multiset{})
      && if tried && accept(held.0, held.1) then mPairs == [held]
         else Reported(flags.firstContact, mPairs, Pairs(l, k, accept))
    }

    // Any contact is remembered by its first pair, which exists.
    ghost predicate Remembered(l: seq<nat>, k: seq<nat>, cache: Pair?, held: (nat, nat))
      reads `mPairs, `mFlags, cache
    {
      && (mFlags.contact ==> mPairs != [] && mPairs[0].0 in l && mPairs[0].1 in k)
      && (cache != null ==> Held(cache) == if mFlags.contact then mPairs[0] else held)
    }

    lemma HitAnswers(l: seq<nat>, k: seq<nat>, accept: PairTest, flags: Flags, held: (nat, nat))
      requires held.0 in l && held.1 in k && accept(held.0, held.1)
      requires mPairs == [held] && mFlags == flags.Cleared().Touched()
      ensures Answered(l, k, accept, flags, true, held)
    {
      hide Pairs;
      PairsHold(l, k, accept, held);
    }

    lemma DueAnswers(l: seq<nat>, k: seq<nat>, accept: PairTest, flags: Flags, tried: bool, held: (nat, nat))
      requires !(tried && accept(held.0, held.1)) && Since(flags.Cleared(), [], Pairs(l, k, accept))
      ensures Answered(l, k, accept, flags, tried, held)
      ensures mFlags.contact ==> mPairs != [] && mPairs[0].0 in l && mPairs[0].1 in k
    {
      hide Pairs;
      assert mPairs[0..] == mPairs;
      ReportedSome(flags.firstContact, mPairs, Pairs(l, k, accept));
      if mFlags.contact {
        assert mPairs[0] in multiset(mPairs);
        assert mPairs[0] in mPairs;
        PairsHold(l, k, accept, mPairs[0]);
      }
    }

    // What a sound query is asked for is what its traversal needs.
    lemma SoundIsKept(a: Tree, b: Tree, world0: World, world1: World)
      requires Placed(world0, world1) && Sound(a, b, world0, world1) && m1to0 == Between(world1, world0)
      ensures mesh0.Valid() && mesh1.Valid() && Kept(a, b, false) && FirstKept(a, b)
              && Accept() == AcceptBetween(world0, world1)
      ensures Due(Prims(a), Prims(b)) == Pairs(Prims(a), Prims(b), AcceptBetween(world0, world1))
    {
      hide Between, BoxesKept, AllBoxesKept, Pairs, Matrix3.Rotation, Rigid.Apply, World.Value;
    }

    lemma SoundNoLeafIsKept(a: Tree, b: Tree, world0: World, world1: World)
      requires Placed(world0, world1) && SoundNoLeaf(a, b, world0, world1) && m0to1 == Between(world0, world1)
               && m1to0 == Between(world1, world0)
      ensures mesh0.Valid() && mesh1.Valid() && Kept(a, b, true) && FirstKept(a, b) && LeavesKept(a, b) && Agreed()
      ensures Accept() == AcceptBetween(world0, world1)
      ensures Due(Prims(a), Prims(b)) == Pairs(Prims(a), Prims(b), AcceptBetween(world0, world1))
    {
      hide Between, BoxesKept, AllBoxesKept, Leaf0Kept, Leaf1Kept, Pairs, Matrix3.Rotation, Rigid.Apply, World.Value,
           FormsAgree, Moved;
    }

    method Collide(flat0: Flat, flat1: Flat, ghost a: Tree, ghost b: Tree, world0: World, world1: World, cache: Pair?)
      requires flat0.Holds(flat0.base, a) && Covers(a, mesh0) && flat1.Holds(flat1.base, b) && Covers(b, mesh1)
      requires Tries(cache) ==> cache.id0 in Prims(a) && cache.id1 in Prims(b)
      requires Placed(world0, world1) && Sound(a, b, world0, world1)
      modifies this, cache
      ensures Answered(Prims(a), Prims(b), AcceptBetween(world0, world1), old(mFlags), old(Tries(cache)),
                       old(Held(cache)))
      ensures Remembered(Prims(a), Prims(b), cache, old(Held(cache)))
    {
      hide Ready, Agreed, Kept, BoxesKept, LeavesKept, Covers, Prims, Due, Accept, Step, Between, Pairs, Reported,
           Sound, SoundNoLeaf, AcceptBetween, Placed;
      ghost var flags, tried, held := mFlags, Tries(cache), Held(cache);
      ghost var accept := AcceptBetween(world0, world1);
      PrimsInRange(a, mesh0);
      PrimsInRange(b, mesh1);
      InitQuery(world0, world1);
      SoundIsKept(a, b, world0, world1);
      ReadyFacts();
      var found := CheckTemporalCoherence(cache);
      if found {
        HitAnswers(Prims(a), Prims(b), accept, flags, held);
      } else {
        CollideNodes(flat0, flat1, flat0.base, flat1.base, a, b);
        DueAnswers(Prims(a), Prims(b), accept, flags, tried, held);
        UpdateCache(cache);
      }
    }

    method CollideNoLeaf(flat0: NoLeafFlat, flat1: NoLeafFlat, ghost a: Tree, ghost b: Tree, world0: World,
                         world1: World, cache: Pair?)
      requires flat0.Holds(flat0.base, a) && Covers(a, mesh0) && flat1.Holds(flat1.base, b) && Covers(b, mesh1)
      requires Tries(cache) ==> cache.id0 in Prims(a) && cache.id1 in Prims(b)
      requires Placed(world0, world1) && SoundNoLeaf(a, b, world0, world1)
      modifies this, cache
      ensures Answered(Prims(a), Prims(b), AcceptBetween(world0, world1), old(mFlags), old(Tries(cache)),
                       old(Held(cache)))
      ensures Remembered(Prims(a), Prims(b), cache, old(Held(cache)))
    {
      hide Ready, Agreed, Kept, BoxesKept, LeavesKept, Covers, Prims, Due, Accept, Step, Between, Pairs, Reported,
           Sound, SoundNoLeaf, AcceptBetween, Placed;
      ghost var flags, tried, held := mFlags, Tries(cache), Held(cache);
      ghost var accept := AcceptBetween(world0, world1);
      PrimsInRange(a, mesh0);
      PrimsInRange(b, mesh1);
      InitQuery(world0, world1);
      SoundNoLeafIsKept(a, b, world0, world1);
      ReadyFacts();
      var found := CheckTemporalCoherence(cache);
      if found {
        HitAnswers(Prims(a), Prims(b), accept, flags, held);
      } else {
        CollideNoLeafNodes(flat0, flat1, flat0.base, flat1.base, a, b);
        DueAnswers(Prims(a), Prims(b), accept, flags, tried, held);
        UpdateCache(cache);
      }
    }

    lemma ReadyFacts()
      requires Ready()
      ensures mesh0.Valid() && mesh1.Valid() && mAR == OrientedBoxes.AbsMatrix(m1to0.rot)
    {
    }
  }

  lemma OnlyPair(pairs: seq<(nat, nat)>, p: (nat, nat), accepted: bool)
    requires Reported(true, pairs[0..], if accepted then multiset{p} else multiset{})
    ensures pairs == if accepted then [p] else []
  {
    assert pairs[0..] == pairs;
    assert accepted ==> pairs[0] in pairs;
  }

  lemma Swapped(total: multiset<(nat, nat)>, a: multiset<(nat, nat)>, b: multiset<(nat, nat)>)
    requires total == a + b
    ensures total == b + a
  {
  }

  lemma Quarters(total: multiset<(nat, nat)>, nn: multiset<(nat, nat)>, np: multiset<(nat, nat)>,
                 pn: multiset<(nat, nat)>, pp: multiset<(nat, nat)>)
    requires total == (pp + pn) + (np + nn)
    ensures total == ((nn + np) + pn) + pp
    ensures nn <= total && nn + np <= total && nn + np + pn <= total
  {
  }

  lemma SameAnswers(q0: TreeQuery, q1: TreeQuery, world0: World, world1: World)
    requires q0.mesh0 == q1.mesh0 && q0.mesh1 == q1.mesh1 && q0.triTri == q1.triTri && q0.Placed(world0, world1)
    ensures q1.Placed(world0, world1) && q0.AcceptBetween(world0, world1) == q1.AcceptBetween(world0, world1)
  {
    hide Between, World.Value, Matrix3.Rotation, Accepts;
  }

  // On the same trees, both layouts report the same pairs.
  method LayoutsAgree(q0: TreeQuery, q1: TreeQuery, flat0: Flat, flat1: Flat, noLeaf0: NoLeafFlat, noLeaf1: NoLeafFlat,
                      ghost a: Tree, ghost b: Tree, world0: World, world1: World)
    requires q0 != q1 && q0.mesh0 == q1.mesh0 && q0.mesh1 == q1.mesh1 && q0.triTri == q1.triTri
    requires q0.mFlags == q1.mFlags && !q0.mFlags.firstContact
    requires Covers(a, q0.mesh0) && Covers(b, q0.mesh1)
    requires flat0.Holds(flat0.base, a) && flat1.Holds(flat1.base, b)
    requires noLeaf0.Holds(noLeaf0.base, a) && noLeaf1.Holds(noLeaf1.base, b)
    requires q0.Placed(world0, world1) && q0.Sound(a, b, world0, world1)
    requires q1.Placed(world0, world1) && q1.SoundNoLeaf(a, b, world0, world1)
    modifies q0, q1
    ensures multiset(q0.mPairs) == multiset(q1.mPairs) && q0.mFlags == q1.mFlags
  {
    hide Covers, Prims, Pairs, TreeQuery.Sound, TreeQuery.SoundNoLeaf, Flat.Holds, NoLeafFlat.Holds, Between;
    hide TreeQuery.Placed, TreeQuery.AcceptBetween, TreeQuery.Remembered;
    SameAnswers(q0, q1, world0, world1);
    q0.Collide(flat0, flat1, a, b, world0, world1, null);
    q1.CollideNoLeaf(noLeaf0, noLeaf1, a, b, world0, world1, null);
  }
}
