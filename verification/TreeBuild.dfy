// Building the tree over a mesh, top down, by reorganising one shared index list.
module TreeBuild {
  import opened RealArithmetic
  import opened Geometry
  import opened BoxTree
  import opened TreeBounds
  import opened IndexLists
  import opened TreeShapes

  // The bits of the building rules; earlier splitting rules take precedence.
  datatype Rules = Rules(complete: bool, largestAxis: bool, splatterPoints: bool, balanced: bool, bestAxis: bool,
                         fifty: bool) {
    predicate Known() { largestAxis || splatterPoints || balanced || bestAxis || fifty }
  }

  class Builder {
    const mesh: Mesh
    const mLimit: nat
    const mRules: Rules
    const mNbPrimitives: nat
    var mCount: nat
    var mNbInvalidSplits: nat

    constructor (mesh: Mesh, limit: nat, rules: Rules, nbPrimitives: nat)
      ensures this.mesh == mesh && mLimit == limit && mRules == rules && mNbPrimitives == nbPrimitives
    {
      this.mesh, mLimit, mRules, mNbPrimitives := mesh, limit, rules, nbPrimitives;
      mCount, mNbInvalidSplits := 0, 0;
    }
  }

  // ---- what a split should be

  ghost function Imbalance(m: Mesh, b: Box, l: seq<nat>, axis: nat): real
    requires m.Valid() && axis < 3 && l != []
  {
    Sq(AboveCount(m, b, l, axis) as real / |l| as real - 0.5)
  }

  // The axis the rules pick for a list, and whether the split along it leaves both sides something.
  ghost predicate Chosen(rules: Rules, m: Mesh, b: Box, l: seq<nat>, axis: nat, valid: bool)
    requires ValidPrims(m, l) && |l| > 1
  {
    axis < 3 &&
    if rules.largestAxis then
      axis == LargestAxis(b.extents) && valid == !Useless(m, b, l, axis)
    else if rules.splatterPoints then
      && (forall a: nat :: a < 3 ==> Variance(m, l, a) <= Variance(m, l, axis))
      && (forall a: nat :: a < axis ==> Variance(m, l, a) < Variance(m, l, axis))
      && valid == !Useless(m, b, l, axis)
    else if rules.balanced then
      && (forall a: nat :: a < 3 ==> Imbalance(m, b, l, axis) <= Imbalance(m, b, l, a))
      && (forall a: nat :: a < axis ==> Imbalance(m, b, l, axis) < Imbalance(m, b, l, a))
      && valid == !Useless(m, b, l, axis)
    else if rules.bestAxis then
      && valid == !Useless(m, b, l, axis)
      && (forall a: nat :: a < 3 && (!valid || (a != axis && Goes(b.extents, a, axis))) ==> Useless(m, b, l, a))
    else
      valid
  }

  // The sizes of the two sides: along the axis, or half and half when there is no useful axis.
  ghost predicate Sides(rules: Rules, m: Mesh, b: Box, l: seq<nat>, axis: nat, valid: bool, k: nat)
    requires m.Valid() && axis < 3 && k <= |l|
  {
    if valid && (rules.largestAxis || rules.splatterPoints || rules.balanced || rules.bestAxis)
    then Divided(m, b, l, axis, k)
    else k == |l| / 2
  }

  // ---- a whole tree built by the rules

  // The rules split the list into its first k and the rest.
  ghost predicate Splits(rules: Rules, m: Mesh, b: Box, l: seq<nat>, axis: nat, valid: bool, k: nat)
    requires ValidPrims(m, l) && |l| > 1 && k <= |l|
  {
    Chosen(rules, m, b, l, axis, valid) && Sides(rules, m, b, l, axis, valid, k) && (valid || rules.complete)
  }

  // The rules do not split the list: it is short enough, or they are unknown, or no side may be forced.
  ghost predicate Stops(rules: Rules, limit: nat, m: Mesh, b: Box, l: seq<nat>)
    requires ValidPrims(m, l)
  {
    || |l| <= 1 || |l| <= limit || !rules.Known()
    || (!rules.complete && exists axis: nat :: Chosen(rules, m, b, l, axis, false))
  }

  ghost predicate Divides(rules: Rules, limit: nat, m: Mesh, b: Box, l: seq<nat>, k: nat)
    requires ValidPrims(m, l)
  {
    && 0 < k < |l| && limit < |l| && rules.Known()
    && exists axis: nat, valid: bool :: Splits(rules, m, b, l, axis, valid, k)
  }

  // Every node of the tree is split as the rules say, or not at all when they say so.
  ghost predicate Ruled(rules: Rules, limit: nat, m: Mesh, s: Shape, slice: seq<nat>)
    decreases s
  {
    && ValidPrims(m, slice) && |slice| == s.count
    && if s.Tip? then Stops(rules, limit, m, s.box, slice)
       else
         && Divides(rules, limit, m, s.box, slice, s.pos.count)
         && s.pos.count + s.neg.count == s.count
         && Ruled(rules, limit, m, s.pos, slice[..s.pos.count])
         && Ruled(rules, limit, m, s.neg, slice[s.pos.count..])
  }

  lemma SameLength(l: seq<nat>, k: seq<nat>)
    requires multiset(l) == multiset(k)
    ensures |l| == |k|
  {
    assert |multiset(l)| == |l| && |multiset(k)| == |k|;
  }

  // What the rules choose does not depend on the order of the list.
  lemma ChosenOfSameMembers(rules: Rules, m: Mesh, b: Box, l: seq<nat>, k: seq<nat>, axis: nat, valid: bool)
    requires ValidPrims(m, l) && ValidPrims(m, k) && multiset(l) == multiset(k) && |l| > 1 && |k| > 1
    requires Chosen(rules, m, b, l, axis, valid)
    ensures Chosen(rules, m, b, k, axis, valid)
  {
    hide Variance, AboveCount, Component;
    SameLength(l, k);
    forall a: nat | a < 3
      ensures Variance(m, l, a) == Variance(m, k, a)
      ensures Useless(m, b, l, a) == Useless(m, b, k, a) && Imbalance(m, b, l, a) == Imbalance(m, b, k, a)
    {
      AboveCountOfSameMembers(m, b, l, k, a);
      VarianceOfSameMembers(m, l, k, a);
    }
    hide Useless, Imbalance, Goes;
  }

  // Nor does what the sides hold, when each is only reordered.
  lemma SidesOfSameMembers(rules: Rules, m: Mesh, b: Box, l: seq<nat>, l': seq<nat>, axis: nat, valid: bool, k: nat)
    requires m.Valid() && axis < 3 && k <= |l| == |l'| && Sides(rules, m, b, l, axis, valid, k)
    requires multiset(l[..k]) == multiset(l'[..k]) && multiset(l[k..]) == multiset(l'[k..])
    ensures Sides(rules, m, b, l', axis, valid, k)
  {
    hide IsAbove, Component;
    SameMembers(l[..k], l'[..k]);
    SameMembers(l[k..], l'[k..]);
  }

  // A node split by the rules, with its parts reordered below it, is still split by the rules.
  lemma DividesOfSameMembers(rules: Rules, limit: nat, m: Mesh, b: Box, l: seq<nat>, l1: seq<nat>, l3: seq<nat>,
                             axis: nat, valid: bool, k: nat)
    requires ValidPrims(m, l) && ValidPrims(m, l3) && |l| > 1 && 0 < k < |l1| == |l| == |l3|
    requires limit < |l| && rules.Known() && (valid || rules.complete)
    requires multiset(l) == multiset(l3) && multiset(l1[..k]) == multiset(l3[..k])
             && multiset(l1[k..]) == multiset(l3[k..])
    requires Chosen(rules, m, b, l, axis, valid) && Sides(rules, m, b, l1, axis, valid, k)
    ensures Divides(rules, limit, m, b, l3, k)
  {
    ChosenOfSameMembers(rules, m, b, l, l3, axis, valid);
    SidesOfSameMembers(rules, m, b, l1, l3, axis, valid, k);
    hide Chosen, Sides, ValidPrims;
    assert Splits(rules, m, b, l3, axis, valid, k);
  }

  lemma UselessCounts(m: Mesh, b: Box, l: seq<nat>, l': seq<nat>, axis: nat, k: nat)
    requires m.Valid() && axis < 3 && multiset(l) == multiset(l') && |l| == |l'|
    requires k <= |l'| && Divided(m, b, l', axis, k)
    ensures AboveCount(m, b, l, axis) == k
    ensures Useless(m, b, l, axis) <==> k == 0 || k == |l|
  {
    DividedCounts(m, b, l', axis, k);
    AboveCountOfSameMembers(m, b, l, l', axis);
  }

  lemma JudgedByValue(m: Mesh, split: real, axis: nat, p: nat)
    requires m.Valid() && axis < 3 && p < |m.faces|
    ensures IsAbove(m, split, axis, p) <==> SplittingValue(m.Tri(p), axis) > split
  {
  }

  lemma DividedByIndex(m: Mesh, b: Box, l: seq<nat>, axis: nat, k: nat)
    requires m.Valid() && axis < 3 && k <= |l|
    requires forall i :: 0 <= i < k ==> IsAbove(m, Component(b.center, axis), axis, l[i])
    requires forall i :: k <= i < |l| ==> !IsAbove(m, Component(b.center, axis), axis, l[i])
    ensures Divided(m, b, l, axis, k)
  {
    hide IsAbove, Component;
    forall p <- l[k..] ensures !IsAbove(m, Component(b.center, axis), axis, p) {
      var i :| 0 <= i < |l[k..]| && l[k..][i] == p;
      assert l[k + i] == p;
    }
  }

  class AABBTreeNode {
    var mBV: Box
    var mP: AABBTreeNode?
    var mN: AABBTreeNode?
    var mStart: nat
    var mNbPrimitives: nat
    ghost var Repr: set<AABBTreeNode>

    constructor ()
      ensures mP == null && mN == null && mNbPrimitives == 0 && Repr == {this}
    {
      mBV := Box(Point(0.0, 0.0, 0.0), Point(0.0, 0.0, 0.0));
      mP, mN := null, null;
      mStart, mNbPrimitives := 0, 0;
      Repr := {this};
    }

    ghost predicate InRange(indices: array<nat>, m: Mesh)
      reads `mStart, `mNbPrimitives, indices
    {
      mStart + mNbPrimitives <= indices.Length && m.Valid() && ValidPrims(m, Part(indices[..], mStart, mNbPrimitives))
    }

    ghost function Slice(indices: array<nat>): seq<nat>
      requires mStart + mNbPrimitives <= indices.Length
      reads `mStart, `mNbPrimitives, indices
    {
      Part(indices[..], mStart, mNbPrimitives)
    }

    method Swap(indices: array<nat>, i: nat, j: nat, ghost m: Mesh)
      requires InRange(indices, m) && mStart <= i < mStart + mNbPrimitives && mStart <= j < mStart + mNbPrimitives
      modifies indices
      ensures InRange(indices, m) && Rearranged(old(indices[..]), indices[..], mStart, mNbPrimitives)
      ensures indices[i] == old(indices[j]) && indices[j] == old(indices[i])
      ensures forall k :: 0 <= k < indices.Length && k != i && k != j ==> indices[k] == old(indices[k])
    {
      hide Rearranged, Part, ValidPrims;
      ghost var a := indices[..];
      var tmp := indices[i];
      indices[i] := indices[j];
      indices[j] := tmp;
      assert indices[..] == a[i := a[j]][j := a[i]];
      SwapRearranges(a, indices[..], mStart, mNbPrimitives, i, j);
      ValidWhenRearranged(m, a, indices[..], mStart, mNbPrimitives);
    }

    // Moves the primitives above the middle of the box to the front of the slice.
    method Split(axis: nat, builder: Builder, indices: array<nat>) returns (nbPos: nat)
      requires axis < 3 && InRange(indices, builder.mesh)
      modifies indices
      ensures InRange(indices, builder.mesh) && nbPos <= mNbPrimitives
      ensures Rearranged(old(indices[..]), indices[..], mStart, mNbPrimitives)
      ensures Divided(builder.mesh, mBV, Slice(indices), axis, nbPos)
    {
      hide Component, SplittingValue, Rearranged, IsAbove, Divided, Part;
      RearrangedSame(indices[..], mStart, mNbPrimitives);
      var splitValue := Component(mBV.center, axis);
      nbPos := 0;
      var i := 0;
      ghost var before, lo, n := indices[..], mStart, mNbPrimitives;
      while i < mNbPrimitives
        invariant 0 <= i <= mNbPrimitives && nbPos <= i && InRange(indices, builder.mesh)
        invariant Rearranged(before, indices[..], lo, n)
        invariant forall k :: lo <= k < lo + nbPos ==> IsAbove(builder.mesh, splitValue, axis, indices[k])
        invariant forall k :: lo + nbPos <= k < lo + i ==> !IsAbove(builder.mesh, splitValue, axis, indices[k])
      {
        var index := indices[mStart + i];
        ghost var slice := Slice(indices);
        assert slice[i] == index && slice[i] < |builder.mesh.faces|;
        JudgedByValue(builder.mesh, splitValue, axis, index);
        var primitiveValue := SplittingValue(builder.mesh.Tri(index), axis);
        if primitiveValue > splitValue {
          ghost var a := indices[..];
          Swap(indices, mStart + i, mStart + nbPos, builder.mesh);
          RearrangedTwice(before, a, indices[..], lo, n);
          nbPos := nbPos + 1;
        }
        i := i + 1;
      }
      DividedByIndex(builder.mesh, mBV, Slice(indices), axis, nbPos);
    }

    // A split along an axis, judged by whether it left both sides something.
    method SplitAlong(axis: nat, builder: Builder, indices: array<nat>) returns (nbPos: nat, valid: bool)
      requires axis < 3 && InRange(indices, builder.mesh)
      modifies indices
      ensures InRange(indices, builder.mesh) && nbPos <= mNbPrimitives
      ensures Rearranged(old(indices[..]), indices[..], mStart, mNbPrimitives)
      ensures Divided(builder.mesh, mBV, Slice(indices), axis, nbPos)
      ensures nbPos == AboveCount(builder.mesh, mBV, old(Slice(indices)), axis)
      ensures valid == (0 < nbPos < mNbPrimitives) == !Useless(builder.mesh, mBV, old(Slice(indices)), axis)
    {
      hide Component, Divided, AboveCount, Useless, ValidPrims;
      ghost var before := Slice(indices);
      nbPos := Split(axis, builder, indices);
      SliceOf(old(indices[..]), before);
      valid := !(nbPos == 0 || nbPos == mNbPrimitives);
      UselessCounts(builder.mesh, mBV, before, Slice(indices), axis, nbPos);
    }

    lemma SliceOf(a: seq<nat>, s: seq<nat>)
      requires mStart + mNbPrimitives <= |a| && s == Part(a, mStart, mNbPrimitives)
      ensures |s| == mNbPrimitives
    {
    }

    // Picks the split the rules ask for and reorganises the slice accordingly.
    method ChooseSplit(builder: Builder, indices: array<nat>) returns (nbPos: nat, valid: bool, ghost axis: nat)
      requires InRange(indices, builder.mesh) && mNbPrimitives > 1 && builder.mRules.Known()
      modifies indices
      ensures InRange(indices, builder.mesh) && nbPos <= mNbPrimitives
      ensures Rearranged(old(indices[..]), indices[..], mStart, mNbPrimitives)
      ensures axis < 3 && Chosen(builder.mRules, builder.mesh, mBV, old(Slice(indices)), axis, valid)
      ensures valid ==>
                0 < nbPos < mNbPrimitives
                && Sides(builder.mRules, builder.mesh, mBV, Slice(indices), axis, valid, nbPos)
    {
      hide Component, Divided, AboveCount, Useless, ValidPrims, Variance, Rearranged;
      if builder.mRules.largestAxis {
        var largest := LargestAxis(mBV.extents);
        nbPos, valid := SplitAlong(largest, builder, indices);
        axis := largest;
      } else if builder.mRules.splatterPoints {
        var widest := VarianceAxis(builder.mesh, Part(indices[..], mStart, mNbPrimitives));
        nbPos, valid := SplitAlong(widest, builder, indices);
        axis := widest;
      } else if builder.mRules.balanced {
        nbPos, valid, axis := SplitBalanced(builder, indices);
      } else if builder.mRules.bestAxis {
        nbPos, valid, axis := SplitBest(builder, indices);
      } else {
        nbPos, valid, axis := mNbPrimitives / 2, true, 0;
        RearrangedSame(indices[..], mStart, mNbPrimitives);
      }
    }

    // Splits along every axis in turn, then again along the one closest to half and half.
    method SplitBalanced(builder: Builder, indices: array<nat>) returns (nbPos: nat, valid: bool, min: nat)
      requires InRange(indices, builder.mesh) && mNbPrimitives > 1
      modifies indices
      ensures InRange(indices, builder.mesh) && nbPos <= mNbPrimitives && min < 3
      ensures Rearranged(old(indices[..]), indices[..], mStart, mNbPrimitives)
      ensures Divided(builder.mesh, mBV, Slice(indices), min, nbPos)
      ensures forall a: nat :: a < 3 ==>
                Imbalance(builder.mesh, mBV, old(Slice(indices)), min)
                <= Imbalance(builder.mesh, mBV, old(Slice(indices)), a)
      ensures forall a: nat :: a < min ==>
                Imbalance(builder.mesh, mBV, old(Slice(indices)), min)
                < Imbalance(builder.mesh, mBV, old(Slice(indices)), a)
      ensures valid == (0 < nbPos < mNbPrimitives) == !Useless(builder.mesh, mBV, old(Slice(indices)), min)
    {
      hide Component, Divided, AboveCount, Useless, ValidPrims, Rearranged, Imbalance;
      ghost var a0, s0 := indices[..], Slice(indices);
      RearrangedSame(a0, mStart, mNbPrimitives);
      var results := [0.0, 0.0, 0.0];
      var result := TryAxis(0, builder, indices, a0, s0);
      results := results[0 := result];
      result := TryAxis(1, builder, indices, a0, s0);
      results := results[1 := result];
      result := TryAxis(2, builder, indices, a0, s0);
      results := results[2 := result];
      min := 0;
      if results[1] < results[min] {
        min := 1;
      }
      if results[2] < results[min] {
        min := 2;
      }
      ghost var a3, s3 := indices[..], Slice(indices);
      SlicesKeepCounts(builder.mesh, a0, a3, s0, s3);
      nbPos, valid := SplitAlong(min, builder, indices);
      RearrangedTwice(a0, a3, indices[..], mStart, mNbPrimitives);
    }

    // How far from half and half a split along an axis is.
    method TryAxis(axis: nat, builder: Builder, indices: array<nat>, ghost a0: seq<nat>, ghost s0: seq<nat>)
      returns (result: real)
      requires axis < 3 && InRange(indices, builder.mesh) && mNbPrimitives > 1
      requires Rearranged(a0, indices[..], mStart, mNbPrimitives) && |a0| == indices.Length
               && s0 == Part(a0, mStart, mNbPrimitives)
      modifies indices
      ensures InRange(indices, builder.mesh) && Rearranged(a0, indices[..], mStart, mNbPrimitives)
      ensures |s0| == mNbPrimitives && result == Imbalance(builder.mesh, mBV, s0, axis)
    {
      hide Component, Divided, AboveCount, Useless, ValidPrims, Rearranged;
      ghost var a, s := indices[..], Slice(indices);
      SlicesKeepCounts(builder.mesh, a0, a, s0, s);
      var nbPos, valid := SplitAlong(axis, builder, indices);
      RearrangedTwice(a0, a, indices[..], mStart, mNbPrimitives);
      result := Sq(nbPos as real / mNbPrimitives as real - 0.5);
    }

    lemma SlicesKeepCounts(m: Mesh, a: seq<nat>, a': seq<nat>, s: seq<nat>, s': seq<nat>)
      requires m.Valid() && Rearranged(a, a', mStart, mNbPrimitives)
      requires s == Part(a, mStart, mNbPrimitives) && s' == Part(a', mStart, mNbPrimitives)
      ensures |s| == |s'| == mNbPrimitives
      ensures forall axis: nat :: axis < 3 ==> AboveCount(m, mBV, s, axis) == AboveCount(m, mBV, s', axis)
      ensures forall axis: nat :: axis < 3 ==> Useless(m, mBV, s, axis) == Useless(m, mBV, s', axis)
    {
      forall axis: nat | axis < 3
        ensures AboveCount(m, mBV, s, axis) == AboveCount(m, mBV, s', axis)
        ensures Useless(m, mBV, s, axis) == Useless(m, mBV, s', axis)
      {
        AboveCountOfSameMembers(m, mBV, s, s', axis);
      }
    }

    // Tries the longest axis first and stops at the first useful one.
    method SplitBest(builder: Builder, indices: array<nat>) returns (nbPos: nat, valid: bool, axis: nat)
      requires InRange(indices, builder.mesh) && mNbPrimitives > 1
      modifies indices
      ensures InRange(indices, builder.mesh) && nbPos <= mNbPrimitives && axis < 3
      ensures Rearranged(old(indices[..]), indices[..], mStart, mNbPrimitives)
      ensures valid ==> 0 < nbPos < mNbPrimitives && Divided(builder.mesh, mBV, Slice(indices), axis, nbPos)
      ensures valid == !Useless(builder.mesh, mBV, old(Slice(indices)), axis)
      ensures forall a: nat :: a < 3 && (!valid || (a != axis && Goes(mBV.extents, a, axis))) ==>
                Useless(builder.mesh, mBV, old(Slice(indices)), a)
    {
      hide Component, Divided, AboveCount, Useless, ValidPrims, Rearranged;
      ghost var a0, s0, lo, n := indices[..], Slice(indices), mStart, mNbPrimitives;
      var sortedAxis := SortAxes(mBV.extents);
      var curAxis := 0;
      nbPos, valid := 0, false;
      RearrangedSame(a0, lo, n);
      while !valid && curAxis != 3
        invariant 0 <= curAxis <= 3 && nbPos <= mNbPrimitives && InRange(indices, builder.mesh)
        invariant Rearranged(a0, indices[..], lo, n)
        invariant forall k :: 0 <= k < curAxis ==> Useless(builder.mesh, mBV, s0, sortedAxis[k])
        invariant valid ==> curAxis < 3 && !Useless(builder.mesh, mBV, s0, sortedAxis[curAxis])
        invariant valid ==>
                    0 < nbPos < mNbPrimitives
                    && Divided(builder.mesh, mBV, Slice(indices), sortedAxis[curAxis], nbPos)
        decreases 3 - curAxis, !valid
      {
        ghost var a1, s1 := indices[..], Slice(indices);
        SlicesKeepCounts(builder.mesh, a0, a1, s0, s1);
        nbPos, valid := SplitAlong(sortedAxis[curAxis], builder, indices);
        RearrangedTwice(a0, a1, indices[..], lo, n);
        if !valid {
          curAxis := curAxis + 1;
        }
      }
      axis := sortedAxis[if valid then curAxis else 2];
      AllAxes(sortedAxis);
    }

    lemma AllAxes(sorted: seq<nat>)
      requires |sorted| == 3 && sorted[0] < 3 && sorted[1] < 3 && sorted[2] < 3
      requires sorted[0] != sorted[1] && sorted[1] != sorted[2] && sorted[0] != sorted[2]
      ensures forall a: nat :: a < 3 ==> a in sorted
    {
    }

    // This node and what hangs below it have this shape.
    ghost predicate Is(s: Shape)
      reads this, Repr
      decreases s
    {
      && this in Repr && mBV == s.box && mStart == s.start && mNbPrimitives == s.count
      && match s
         case Tip(_, _, _) => mP == null && mN == null
         case Fork(_, _, _, pos, neg) =>
           && mP != null && mN != null && mP in Repr && mN in Repr
           && mP.Repr <= Repr && mN.Repr <= Repr && mP.Repr !! mN.Repr
           && this !in mP.Repr && this !in mN.Repr
           && mP.Is(pos) && mN.Is(neg)
    }

    // A node is divided when its list is long enough, the rules are known, and the split is useful
    // or forced.
    method Subdivide(builder: Builder, indices: array<nat>) returns (ok: bool, ghost axis: nat, ghost valid: bool)
      requires InRange(indices, builder.mesh) && mNbPrimitives > 0 && mP == null && mN == null
      modifies `mP, `mN, indices, builder`mCount, builder`mNbInvalidSplits
      ensures InRange(indices, builder.mesh) && Rearranged(old(indices[..]), indices[..], mStart, mNbPrimitives)
      ensures ok == (!Dividable(builder) || builder.mRules.Known())
      ensures Dividable(builder) && builder.mRules.Known() ==>
                Chosen(builder.mRules, builder.mesh, mBV, old(Slice(indices)), axis, valid)
      ensures mP != null <==> Dividable(builder) && builder.mRules.Known() && (valid || builder.mRules.complete)
      ensures mN != null <==> mP != null
      ensures builder.mNbInvalidSplits == old(builder.mNbInvalidSplits) + if mP != null && !valid then 1 else 0
      ensures mP == null ==> builder.mCount == old(builder.mCount)
      ensures mP != null ==>
                && fresh(mP) && fresh(mN) && Parted() && builder.mCount == old(builder.mCount) + 2
                && axis < 3 && Sides(builder.mRules, builder.mesh, mBV, Slice(indices), axis, valid, mP.mNbPrimitives)
    {
      hide Chosen, Sides, Rearranged, ValidPrims;
      axis, valid := 0, true;
      RearrangedSame(indices[..], mStart, mNbPrimitives);
      if mNbPrimitives == 1 {
        return true, axis, valid;
      }
      if mNbPrimitives <= builder.mLimit {
        return true, axis, valid;
      }
      if !builder.mRules.Known() {
        return false, axis, valid;
      }
      var nbPos, validSplit, chosen := ChooseSplit(builder, indices);
      axis, valid := chosen, validSplit;
      if !validSplit {
        if builder.mRules.complete {
          builder.mNbInvalidSplits := builder.mNbInvalidSplits + 1;
          nbPos := mNbPrimitives / 2;
          HalvesAreSides(builder.mRules, builder.mesh, mBV, Slice(indices), chosen);
        } else {
          return true, axis, valid;
        }
      }
      MakeChildren(nbPos, builder);
      ok := true;
    }

    // Two new nodes that share the slice.
    method MakeChildren(nbPos: nat, builder: Builder)
      requires 0 < nbPos < mNbPrimitives
      modifies `mP, `mN, builder`mCount
      ensures Parted() && fresh(mP) && fresh(mN) && mP.mNbPrimitives == nbPos
      ensures builder.mCount == old(builder.mCount) + 2
    {
      mP := new AABBTreeNode();
      mN := new AABBTreeNode();
      builder.mCount := builder.mCount + 2;
      mP.mStart := mStart;
      mP.mNbPrimitives := nbPos;
      mN.mStart := mStart + nbPos;
      mN.mNbPrimitives := mNbPrimitives - nbPos;
    }

    // Two nodes not yet divided, which share the slice.
    ghost predicate Parted()
      reads this, mP, mN
    {
      && mP != null && mN != null && mP != mN && mP != this && mN != this && mP.Blank() && mN.Blank()
      && mP.mStart == mStart && mN.mStart == mStart + mP.mNbPrimitives
      && 0 < mP.mNbPrimitives < mNbPrimitives && mP.mNbPrimitives + mN.mNbPrimitives == mNbPrimitives
    }

    predicate Dividable(builder: Builder)
      reads `mNbPrimitives
    {
      mNbPrimitives != 1 && mNbPrimitives > builder.mLimit
    }

    ghost predicate Blank()
      reads this
    {
      mP == null && mN == null && Repr == {this}
    }

    // Box first, then the children; each child's own reorganising stays inside its slice.
    method BuildHierarchy(builder: Builder, indices: array<nat>) returns (ghost s: Shape)
      requires InRange(indices, builder.mesh) && Finite(builder.mesh) && mNbPrimitives > 0 && Blank()
      modifies this, indices, builder`mCount, builder`mNbInvalidSplits
      ensures mStart == old(mStart) && mNbPrimitives == old(mNbPrimitives)
      ensures Is(s) && this in Repr && fresh(Repr - {this}) && s.start == mStart && s.count == mNbPrimitives
      ensures InRange(indices, builder.mesh) && Rearranged(old(indices[..]), indices[..], mStart, mNbPrimitives)
      ensures WellBuilt(s, builder.mesh, Slice(indices))
      ensures Ruled(builder.mRules, builder.mLimit, builder.mesh, s, Slice(indices))
      ensures builder.mCount == old(builder.mCount) + Nodes(s) - 1
      ensures builder.mRules.complete && builder.mRules.Known() && builder.mLimit <= 1 ==> Single(s)
      ensures !builder.mRules.Known() ==> s.Tip?
      decreases mNbPrimitives, 1
    {
      hide Chosen, Sides, Rearranged, ValidPrims, Bounds, WellBuilt, Finite, Mesh.Valid, Part, Ruled, PartsKept;
      ghost var a0, lo, n := indices[..], mStart, mNbPrimitives;
      var ok, box := ComputeGlobalBox(builder.mesh, Part(indices[..], mStart, mNbPrimitives));
      mBV := box;
      ghost var axis, valid;
      ok, axis, valid := Subdivide(builder, indices);
      ghost var a1 := indices[..];
      BoundsAfter(builder.mesh, box, a0, a1, lo, n);
      if mP == null {
        s := Tip(box, mStart, mNbPrimitives);
        TipIsWellBuilt(s, builder.mesh, Slice(indices));
        RuledTip(builder.mRules, builder.mLimit, builder.mesh, s, a0, a1, axis);
        return;
      }
      ghost var sp, sn := BuildChildren(builder, indices);
      ghost var a3 := indices[..];
      s := Fork(box, mStart, mNbPrimitives, sp, sn);
      Repr := {this} + mP.Repr + mN.Repr;
      BoundsAfter(builder.mesh, box, a1, a3, lo, n);
      RearrangedTwice(a0, a1, a3, lo, n);
      Assembled(builder.mesh, s, a3);
      ValidWhenRearranged(builder.mesh, a1, a3, lo, n);
      RuledFork(builder.mRules, builder.mLimit, builder.mesh, s, a0, a1, a3, axis, valid);
    }

    // Builds both children, the positive one first; this node itself is not touched.
    method BuildChildren(builder: Builder, indices: array<nat>) returns (ghost sp: Shape, ghost sn: Shape)
      requires InRange(indices, builder.mesh) && Finite(builder.mesh) && Parted()
      modifies mP, mN, indices, builder`mCount, builder`mNbInvalidSplits
      ensures mP.Is(sp) && mN.Is(sn) && mP.Repr !! mN.Repr && this !in mP.Repr && this !in mN.Repr
      ensures fresh(mP.Repr - {mP}) && fresh(mN.Repr - {mN}) && mP in mP.Repr && mN in mN.Repr
      ensures sp.start == mStart && sn.start == mStart + sp.count && sp.count + sn.count == mNbPrimitives
      ensures 0 < sp.count < mNbPrimitives
      ensures Rearranged(old(indices[..]), indices[..], mStart, mNbPrimitives)
      ensures PartsKept(old(indices[..]), indices[..], mStart, mNbPrimitives, sp.count)
      ensures Ruled(builder.mRules, builder.mLimit, builder.mesh, sp, Part(indices[..], mStart, sp.count))
      ensures Ruled(builder.mRules, builder.mLimit, builder.mesh, sn, Part(indices[..], mStart + sp.count, sn.count))
      ensures sp.count == old(mP.mNbPrimitives)
      ensures WellBuilt(sp, builder.mesh, Part(indices[..], mStart, sp.count))
      ensures WellBuilt(sn, builder.mesh, Part(indices[..], mStart + sp.count, sn.count))
      ensures builder.mCount == old(builder.mCount) + Nodes(sp) + Nodes(sn) - 2
      ensures builder.mRules.complete && builder.mRules.Known() && builder.mLimit <= 1 ==> Single(sp) && Single(sn)
      decreases mNbPrimitives, 0
    {
      hide Rearranged, ValidPrims, Bounds, WellBuilt, Finite, Mesh.Valid, Is, Nodes, Single, Part, Ruled, PartsKept;
      ghost var a1, lo, n, k := indices[..], mStart, mNbPrimitives, mP.mNbPrimitives;
      PartsInRange(builder.mesh, a1, lo, n, k);
      sp := mP.BuildHierarchy(builder, indices);
      ghost var a2 := indices[..];
      NextPart(builder.mesh, a1, a2, lo, n, k);
      sn := mN.BuildHierarchy(builder, indices);
      ghost var a3 := indices[..];
      BothRearranged(a1, a2, a3, lo, n, k);
    }
  }

  lemma TipIsWellBuilt(s: Shape, m: Mesh, slice: seq<nat>)
    requires s.Tip? && |slice| == s.count > 0 && Bounds(s.box, m, slice)
    ensures WellBuilt(s, m, slice)
  {
  }

  lemma HalvesAreSides(rules: Rules, m: Mesh, b: Box, l: seq<nat>, axis: nat)
    requires m.Valid() && axis < 3
    ensures Sides(rules, m, b, l, axis, false, |l| / 2)
  {
  }

  // The box bounds the slice however it is reorganised later.
  lemma BoundsAfter(m: Mesh, box: Box, a: seq<nat>, a': seq<nat>, lo: nat, n: nat)
    requires Rearranged(a, a', lo, n) && Bounds(box, m, Part(a, lo, n))
    ensures Bounds(box, m, Part(a', lo, n))
  {
    BoundsOfSameMembers(box, m, Part(a, lo, n), Part(a', lo, n));
  }

  lemma PartsInRange(m: Mesh, a: seq<nat>, lo: nat, n: nat, k: nat)
    requires lo + n <= |a| && k <= n && ValidPrims(m, Part(a, lo, n))
    ensures ValidPrims(m, Part(a, lo, k)) && ValidPrims(m, Part(a, lo + k, n - k))
  {
    assert Part(a, lo, k) == Part(a, lo, n)[..k];
    assert Part(a, lo + k, n - k) == Part(a, lo, n)[k..];
  }

  lemma NextPart(m: Mesh, a1: seq<nat>, a2: seq<nat>, lo: nat, n: nat, k: nat)
    requires lo + n <= |a1| && k <= n && ValidPrims(m, Part(a1, lo, n)) && Rearranged(a1, a2, lo, k)
    ensures |a2| == |a1| && ValidPrims(m, Part(a2, lo + k, n - k))
  {
    PartsInRange(m, a1, lo, n, k);
    RearrangedOutside(a1, a2, lo, k, lo + k, n - k);
  }

  // Both parts of a slice hold what they held.
  ghost predicate PartsKept(a: seq<nat>, b: seq<nat>, lo: nat, n: nat, k: nat) {
    && k <= n && lo + n <= |a| == |b|
    && multiset(Part(a, lo, k)) == multiset(Part(b, lo, k))
    && multiset(Part(a, lo + k, n - k)) == multiset(Part(b, lo + k, n - k))
  }

  lemma PartsOfPart(a: seq<nat>, lo: nat, n: nat, k: nat)
    requires k <= n && lo + n <= |a|
    ensures Part(a, lo, n)[..k] == Part(a, lo, k) && Part(a, lo, n)[k..] == Part(a, lo + k, n - k)
  {
  }

  // A node whose list was split by the rules, and whose children are built by them.
  lemma RuledFork(rules: Rules, limit: nat, m: Mesh, s: Shape, a0: seq<nat>, a1: seq<nat>, a3: seq<nat>,
                  axis: nat, valid: bool)
    requires s.Fork? && Rearranged(a0, a3, s.start, s.count) && PartsKept(a1, a3, s.start, s.count, s.pos.count)
    requires ValidPrims(m, Part(a0, s.start, s.count)) && ValidPrims(m, Part(a3, s.start, s.count))
    requires 0 < s.pos.count < s.count && s.pos.count + s.neg.count == s.count && limit < s.count
    requires rules.Known() && (valid || rules.complete)
    requires Chosen(rules, m, s.box, Part(a0, s.start, s.count), axis, valid)
    requires Sides(rules, m, s.box, Part(a1, s.start, s.count), axis, valid, s.pos.count)
    requires Ruled(rules, limit, m, s.pos, Part(a3, s.start, s.pos.count))
    requires Ruled(rules, limit, m, s.neg, Part(a3, s.start + s.pos.count, s.neg.count))
    ensures Ruled(rules, limit, m, s, Part(a3, s.start, s.count))
  {
    hide Chosen, Sides, ValidPrims, Part, Divides, Ruled;
    PartsOfPart(a1, s.start, s.count, s.pos.count);
    PartsOfPart(a3, s.start, s.count, s.pos.count);
    DividesOfSameMembers(rules, limit, m, s.box, Part(a0, s.start, s.count), Part(a1, s.start, s.count),
                         Part(a3, s.start, s.count), axis, valid, s.pos.count);
    RuledFromParts(rules, limit, m, s, Part(a3, s.start, s.count));
  }

  lemma RuledFromParts(rules: Rules, limit: nat, m: Mesh, s: Shape, slice: seq<nat>)
    requires s.Fork? && ValidPrims(m, slice) && |slice| == s.count && s.pos.count + s.neg.count == s.count
    requires Divides(rules, limit, m, s.box, slice, s.pos.count)
    requires Ruled(rules, limit, m, s.pos, slice[..s.pos.count])
    requires Ruled(rules, limit, m, s.neg, slice[s.pos.count..])
    ensures Ruled(rules, limit, m, s, slice)
  {
    hide Divides, ValidPrims;
  }

  lemma RuledTip(rules: Rules, limit: nat, m: Mesh, s: Shape, a0: seq<nat>, a1: seq<nat>, axis: nat)
    requires s.Tip? && Rearranged(a0, a1, s.start, s.count) && ValidPrims(m, Part(a0, s.start, s.count))
    requires ValidPrims(m, Part(a1, s.start, s.count))
    requires s.count <= 1 || s.count <= limit || !rules.Known()
             || (!rules.complete && Chosen(rules, m, s.box, Part(a0, s.start, s.count), axis, false))
    ensures Ruled(rules, limit, m, s, Part(a1, s.start, s.count))
  {
    var l, k := Part(a0, s.start, s.count), Part(a1, s.start, s.count);
    hide Chosen, ValidPrims, Part;
    if s.count > 1 && s.count > limit && rules.Known() {
      ChosenOfSameMembers(rules, m, s.box, l, k, axis, false);
    }
  }

  lemma BothRearranged(a1: seq<nat>, a2: seq<nat>, a3: seq<nat>, lo: nat, n: nat, k: nat)
    requires k <= n && lo + n <= |a1| && Rearranged(a1, a2, lo, k) && Rearranged(a2, a3, lo + k, n - k)
    ensures Rearranged(a1, a3, lo, n) && Part(a3, lo, k) == Part(a2, lo, k)
    ensures PartsKept(a1, a3, lo, n, k)
  {
    RearrangedOutside(a1, a2, lo, k, lo + k, n - k);
    RearrangedInside(a1, a2, lo, n, lo, k);
    RearrangedInside(a2, a3, lo, n, lo + k, n - k);
    RearrangedTwice(a1, a2, a3, lo, n);
    RearrangedOutside(a2, a3, lo + k, n - k, lo, k);
  }

  lemma Assembled(m: Mesh, s: Shape, a: seq<nat>)
    requires s.Fork? && s.start + s.count <= |a| && Bounds(s.box, m, Part(a, s.start, s.count)) && s.count > 0
    requires s.pos.start == s.start && s.neg.start == s.start + s.pos.count && s.pos.count + s.neg.count == s.count
    requires WellBuilt(s.pos, m, Part(a, s.start, s.pos.count))
             && WellBuilt(s.neg, m, Part(a, s.start + s.pos.count, s.neg.count))
    ensures WellBuilt(s, m, Part(a, s.start, s.count))
  {
    hide Bounds;
    var slice := Part(a, s.start, s.count);
    assert slice[..s.pos.count] == Part(a, s.start, s.pos.count);
    assert slice[s.pos.count..] == Part(a, s.start + s.pos.count, s.neg.count);
  }

  // The indices 0 to n - 1 in order.
  function Upto(n: nat): (l: seq<nat>)
    ensures |l| == n && forall k :: 0 <= k < n ==> l[k] == k
  {
    if n == 0 then [] else Upto(n - 1) + [n - 1]
  }

  // A new list of the indices in order.
  method Identity(n: nat) returns (indices: array<nat>)
    ensures fresh(indices) && indices.Length == n && indices[..] == Upto(n)
  {
    indices := new nat[n];
    var i := 0;
    while i < n
      invariant 0 <= i <= n
      invariant forall k :: 0 <= k < i ==> indices[k] == k
    {
      indices[i] := i;
      i := i + 1;
    }
  }

  class AABBTree {
    const root: AABBTreeNode
    var mIndices: array<nat>
    var mTotalNbNodes: nat

    constructor ()
      ensures fresh(root) && root.Blank() && mTotalNbNodes == 0
    {
      root := new AABBTreeNode();
      mIndices := new nat[0];
      mTotalNbNodes := 0;
    }

    // What a successful build leaves: a permutation of the indices, sliced up by a tree of nodes
    // with tight boxes, and the number of nodes.
    ghost predicate Holds(m: Mesh, n: nat, s: Shape)
      reads this, root, root.Repr, mIndices
    {
      && n > 0 && mIndices.Length == n && multiset(mIndices[..]) == multiset(Upto(n))
      && root.mStart == 0 && root.mNbPrimitives == n && root.Is(s)
      && WellBuilt(s, m, mIndices[..]) && mTotalNbNodes == Nodes(s)
    }

    method Build(builder: Builder) returns (ok: bool, ghost s: Shape)
      requires builder.mesh.Valid() && Finite(builder.mesh) && builder.mNbPrimitives <= |builder.mesh.faces|
      requires root.Blank()
      modifies this, root, builder
      ensures ok == (builder.mNbPrimitives != 0)
      ensures ok ==> fresh(mIndices) && fresh(root.Repr - {root}) && Holds(builder.mesh, builder.mNbPrimitives, s)
      ensures ok && builder.mRules.complete && builder.mRules.Known() && builder.mLimit <= 1 ==>
                Single(s) && mTotalNbNodes == 2 * builder.mNbPrimitives - 1
      ensures ok && !builder.mRules.Known() ==> s.Tip?
      ensures ok ==> Ruled(builder.mRules, builder.mLimit, builder.mesh, s, mIndices[..])
    {
      hide Finite, Mesh.Valid, WellBuilt, Nodes, Single, AABBTreeNode.Is, Rearranged, Part, Ruled;
      ghost var n := builder.mNbPrimitives;
      s := Tip(Box(Point(0.0, 0.0, 0.0), Point(0.0, 0.0, 0.0)), 0, 0);
      if builder.mNbPrimitives == 0 {
        return false, s;
      }
      builder.mCount := 1;
      builder.mNbInvalidSplits := 0;
      var indices := Identity(builder.mNbPrimitives);
      mIndices := indices;
      ghost var a := indices[..];
      root.mStart := 0;
      root.mNbPrimitives := builder.mNbPrimitives;
      WholePart(a, n);
      s := root.BuildHierarchy(builder, indices);
      WholePart(indices[..], n);
      WholeList(a, indices[..], n);
      mTotalNbNodes := builder.mCount;
      if Single(s) {
        CompleteCounts(s, builder.mesh, indices[..]);
      }
      ok := true;
    }
  }

  lemma WholeList(a: seq<nat>, b: seq<nat>, n: nat)
    requires |a| == n && Rearranged(a, b, 0, n)
    ensures |b| == n && multiset(a) == multiset(b)
  {
    WholePart(a, n);
    WholePart(b, n);
  }

  lemma WholePart(a: seq<nat>, n: nat)
    requires |a| == n
    ensures Part(a, 0, n) == a
  {
  }
}
