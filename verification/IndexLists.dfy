// Reorganising a slice of the index list in place.
module IndexLists {
  import opened RealArithmetic
  import opened Geometry
  import opened BoxTree
  import opened TreeBounds

  // The n entries from lo on.
  function Part(a: seq<nat>, lo: nat, n: nat): (s: seq<nat>)
    requires lo + n <= |a|
    ensures |s| == n && forall i :: 0 <= i < n ==> s[i] == a[lo + i]
  {
    a[lo..lo + n]
  }

  // Only the n entries from lo on changed, and only their order.
  ghost predicate Rearranged(a: seq<nat>, b: seq<nat>, lo: nat, n: nat) {
    && |a| == |b| && lo + n <= |a|
    && a[..lo] == b[..lo] && a[lo + n..] == b[lo + n..]
    && multiset(Part(a, lo, n)) == multiset(Part(b, lo, n))
  }

  lemma RearrangedSame(a: seq<nat>, lo: nat, n: nat)
    requires lo + n <= |a|
    ensures Rearranged(a, a, lo, n)
  {
  }

  lemma RearrangedTwice(a: seq<nat>, b: seq<nat>, c: seq<nat>, lo: nat, n: nat)
    requires Rearranged(a, b, lo, n) && Rearranged(b, c, lo, n)
    ensures Rearranged(a, c, lo, n)
  {
  }

  lemma SwapRearranges(a: seq<nat>, b: seq<nat>, lo: nat, n: nat, i: nat, j: nat)
    requires lo + n <= |a| && lo <= i < lo + n && lo <= j < lo + n
    requires b == a[i := a[j]][j := a[i]]
    ensures Rearranged(a, b, lo, n)
  {
    SwapInPart(a, b, lo, n, i, j);
    var s := Part(a, lo, n);
    hide Part;
    SwapKeepsMembers(s, i - lo, j - lo);
  }

  lemma SwapInPart(a: seq<nat>, b: seq<nat>, lo: nat, n: nat, i: nat, j: nat)
    requires lo + n <= |a| && lo <= i < lo + n && lo <= j < lo + n
    requires b == a[i := a[j]][j := a[i]]
    ensures |b| == |a| && b[..lo] == a[..lo] && b[lo + n..] == a[lo + n..]
    ensures var s := Part(a, lo, n); Part(b, lo, n) == s[i - lo := s[j - lo]][j - lo := s[i - lo]]
  {
  }

  lemma SwapKeepsMembers(s: seq<nat>, i: nat, j: nat)
    requires i < |s| && j < |s|
    ensures multiset(s[i := s[j]][j := s[i]]) == multiset(s)
  {
  }

  // Rearranging part of a slice rearranges the slice.
  lemma RearrangedInside(a: seq<nat>, b: seq<nat>, lo: nat, n: nat, lo': nat, n': nat)
    requires Rearranged(a, b, lo', n') && lo <= lo' && lo' + n' <= lo + n <= |a|
    ensures Rearranged(a, b, lo, n)
  {
    assert a[..lo] == a[..lo'][..lo] == b[..lo'][..lo] == b[..lo];
    assert a[lo + n..] == a[lo' + n'..][lo + n - lo' - n'..] == b[lo' + n'..][lo + n - lo' - n'..] == b[lo + n..];
    assert a[lo..lo'] == a[..lo'][lo..] == b[..lo'][lo..] == b[lo..lo'];
    assert a[lo' + n'..lo + n] == a[lo' + n'..][..lo + n - lo' - n'] == b[lo' + n'..][..lo + n - lo' - n'] ==
           b[lo' + n'..lo + n];
    assert a[lo..lo + n] == a[lo..lo'] + a[lo'..lo' + n'] + a[lo' + n'..lo + n];
    assert b[lo..lo + n] == b[lo..lo'] + b[lo'..lo' + n'] + b[lo' + n'..lo + n];
  }

  lemma SliceOfRest(a: seq<nat>, hi: nat, lo: nat, n: nat)
    requires hi <= lo && lo + n <= |a|
    ensures a[lo..lo + n] == a[hi..][lo - hi..lo - hi + n]
  {
  }

  // A slice before or after the rearranged one is untouched.
  lemma RearrangedOutside(a: seq<nat>, b: seq<nat>, lo: nat, n: nat, lo': nat, n': nat)
    requires Rearranged(a, b, lo, n) && lo' + n' <= |a| && (lo' + n' <= lo || lo + n <= lo')
    ensures Part(a, lo', n') == Part(b, lo', n')
  {
    if lo' + n' <= lo {
      assert a[lo'..lo' + n'] == a[..lo][lo'..lo' + n'] == b[..lo][lo'..lo' + n'] == b[lo'..lo' + n'];
    } else {
      SliceOfRest(a, lo + n, lo', n');
      SliceOfRest(b, lo + n, lo', n');
    }
  }

  lemma ValidWhenRearranged(m: Mesh, a: seq<nat>, b: seq<nat>, lo: nat, n: nat)
    requires Rearranged(a, b, lo, n) && ValidPrims(m, Part(a, lo, n))
    ensures ValidPrims(m, Part(b, lo, n))
  {
    SameMembers(Part(a, lo, n), Part(b, lo, n));
    var k := Part(b, lo, n);
    forall i | 0 <= i < |k| ensures k[i] < |m.faces| {
      assert k[i] in k;
      assert k[i] in Part(a, lo, n);
    }
  }

  // ---- which side of the split a primitive goes to

  const INV3: real := 1.0 / 3.0

  function SplittingValue(t: Triangle, axis: nat): real
    requires axis < 3
  {
    (Component(t.v0, axis) + Component(t.v1, axis) + Component(t.v2, axis)) * INV3
  }

  predicate IsAbove(m: Mesh, split: real, axis: nat, p: nat)
    requires m.Valid() && axis < 3
  {
    p < |m.faces| && SplittingValue(m.Tri(p), axis) > split
  }

  ghost function Above(m: Mesh, split: real, axis: nat): nat -> bool
    requires m.Valid() && axis < 3
  {
    (p: nat) => IsAbove(m, split, axis, p)
  }

  // How many primitives of a list lie above the middle of the box.
  ghost function AboveCount(m: Mesh, b: Box, l: seq<nat>, axis: nat): nat
    requires m.Valid() && axis < 3
  {
    |Accepted(l, Above(m, Component(b.center, axis), axis))|
  }

  // Those above come first.
  ghost predicate Divided(m: Mesh, b: Box, l: seq<nat>, axis: nat, k: nat)
    requires m.Valid() && axis < 3 && k <= |l|
  {
    && (forall p <- l[..k] :: IsAbove(m, Component(b.center, axis), axis, p))
    && (forall p <- l[k..] :: !IsAbove(m, Component(b.center, axis), axis, p))
  }

  lemma DividedCounts(m: Mesh, b: Box, l: seq<nat>, axis: nat, k: nat)
    requires m.Valid() && axis < 3 && k <= |l| && Divided(m, b, l, axis, k)
    ensures AboveCount(m, b, l, axis) == k
  {
    var above := Above(m, Component(b.center, axis), axis);
    assert l == l[..k] + l[k..];
    AcceptedConcat(l[..k], l[k..], above);
    AcceptedAll(l[..k], above);
    AcceptedNone(l[k..], above);
  }

  lemma AboveCountOfSameMembers(m: Mesh, b: Box, l: seq<nat>, l': seq<nat>, axis: nat)
    requires m.Valid() && axis < 3 && multiset(l) == multiset(l')
    ensures AboveCount(m, b, l, axis) == AboveCount(m, b, l', axis)
  {
    var above := Above(m, Component(b.center, axis), axis);
    var s, s' := multiset(Accepted(l, above)), multiset(Accepted(l', above));
    forall p: nat ensures s[p] == s'[p] {
      AcceptedCounts(l, above, p);
      AcceptedCounts(l', above, p);
    }
    assert s == s';
    assert |s| == |Accepted(l, above)| && |s'| == |Accepted(l', above)|;
  }

  // A split along this axis would leave one side empty.
  ghost predicate Useless(m: Mesh, b: Box, l: seq<nat>, axis: nat)
    requires m.Valid() && axis < 3
  {
    AboveCount(m, b, l, axis) == 0 || AboveCount(m, b, l, axis) == |l|
  }

  function LargestAxis(p: Point): (axis: nat)
    ensures axis < 3
    ensures forall a: nat :: a < 3 ==> Component(p, a) <= Component(p, axis)
    ensures forall a: nat :: a < axis ==> Component(p, a) < Component(p, axis)
  {
    var m := if p.y > p.x then 1 else 0;
    if p.z > Component(p, m) then 2 else m
  }

  // ---- the variance of the splitting values along an axis

  function Total(m: Mesh, l: seq<nat>, axis: nat): real
    requires ValidPrims(m, l) && axis < 3
    decreases |l|
  {
    if l == [] then 0.0 else Total(m, l[..|l| - 1], axis) + SplittingValue(m.Tri(l[|l| - 1]), axis)
  }

  function Spread(m: Mesh, l: seq<nat>, axis: nat, mean: real): real
    requires ValidPrims(m, l) && axis < 3
    decreases |l|
  {
    if l == [] then 0.0
    else Spread(m, l[..|l| - 1], axis, mean) + Sq(SplittingValue(m.Tri(l[|l| - 1]), axis) - mean)
  }

  function Mean(m: Mesh, l: seq<nat>, axis: nat): real
    requires ValidPrims(m, l) && axis < 3 && l != []
  {
    Total(m, l, axis) / (|l| as real)
  }

  function Variance(m: Mesh, l: seq<nat>, axis: nat): real
    requires ValidPrims(m, l) && axis < 3 && |l| > 1
  {
    Spread(m, l, axis, Mean(m, l, axis)) / ((|l| - 1) as real)
  }

  lemma {:induction false} SumsConcat(m: Mesh, l: seq<nat>, k: seq<nat>, axis: nat, mean: real)
    requires ValidPrims(m, l) && ValidPrims(m, k) && ValidPrims(m, l + k) && axis < 3
    ensures Total(m, l + k, axis) == Total(m, l, axis) + Total(m, k, axis)
    ensures Spread(m, l + k, axis, mean) == Spread(m, l, axis, mean) + Spread(m, k, axis, mean)
    decreases |k|
  {
    if k == [] {
      assert l + k == l;
    } else {
      var rest := k[..|k| - 1];
      assert (l + k)[..|l + k| - 1] == l + rest;
      SumsConcat(m, l, rest, axis, mean);
    }
  }

  function Without(l: seq<nat>, j: nat): seq<nat>
    requires j < |l|
  {
    l[..j] + l[j + 1..]
  }

  lemma MembersWithout(l: seq<nat>, j: nat)
    requires j < |l|
    ensures multiset(l) == multiset(Without(l, j)) + multiset{l[j]}
  {
    assert l == l[..j] + ([l[j]] + l[j + 1..]);
  }

  lemma CancelOne(a: multiset<nat>, b: multiset<nat>, x: nat)
    requires a + multiset{x} == b + multiset{x}
    ensures a == b
  {
    assert a == (a + multiset{x}) - multiset{x} == (b + multiset{x}) - multiset{x} == b;
  }

  lemma OnlyOne(m: Mesh, x: nat, axis: nat, mean: real)
    requires m.Valid() && x < |m.faces| && axis < 3
    ensures Total(m, [x], axis) == SplittingValue(m.Tri(x), axis)
    ensures Spread(m, [x], axis, mean) == Sq(SplittingValue(m.Tri(x), axis) - mean)
  {
    hide SplittingValue, Sq;
    assert [x][..0] == [] && [x][0] == x;
  }

  lemma SumsWithout(m: Mesh, l: seq<nat>, j: nat, axis: nat, mean: real)
    requires ValidPrims(m, l) && j < |l| && axis < 3
    ensures ValidPrims(m, Without(l, j)) && l[j] < |m.faces|
    ensures Total(m, l, axis) == Total(m, Without(l, j), axis) + SplittingValue(m.Tri(l[j]), axis)
    ensures Spread(m, l, axis, mean) ==
            Spread(m, Without(l, j), axis, mean) + Sq(SplittingValue(m.Tri(l[j]), axis) - mean)
  {
    hide SplittingValue, Sq, Total, Spread;
    var before, after := l[..j], l[j + 1..];
    assert l == before + ([l[j]] + after);
    SumsConcat(m, before, after, axis, mean);
    SumsConcat(m, before, [l[j]] + after, axis, mean);
    SumsConcat(m, [l[j]], after, axis, mean);
    OnlyOne(m, l[j], axis, mean);
  }

  // Sums do not depend on the order of the list.
  lemma {:induction false} SumsOfSameMembers(m: Mesh, l: seq<nat>, k: seq<nat>, axis: nat, mean: real)
    requires ValidPrims(m, l) && ValidPrims(m, k) && multiset(l) == multiset(k) && axis < 3
    ensures Total(m, l, axis) == Total(m, k, axis) && Spread(m, l, axis, mean) == Spread(m, k, axis, mean)
    decreases |l|
  {
    hide SplittingValue, Sq, ValidPrims;
    if l == [] {
      assert |multiset(k)| == |k|;
    } else {
      assert l[0] in multiset(k);
      var j :| 0 <= j < |k| && k[j] == l[0];
      MembersWithout(l, 0);
      MembersWithout(k, j);
      SumsWithout(m, l, 0, axis, mean);
      SumsWithout(m, k, j, axis, mean);
      CancelOne(multiset(Without(l, 0)), multiset(Without(k, j)), l[0]);
      SumsOfSameMembers(m, Without(l, 0), Without(k, j), axis, mean);
    }
  }

  lemma VarianceOfSameMembers(m: Mesh, l: seq<nat>, k: seq<nat>, axis: nat)
    requires ValidPrims(m, l) && ValidPrims(m, k) && multiset(l) == multiset(k) && axis < 3 && |l| > 1
    ensures |k| == |l| && Variance(m, l, axis) == Variance(m, k, axis)
  {
    assert |multiset(l)| == |l| && |multiset(k)| == |k|;
    SumsOfSameMembers(m, l, k, axis, Mean(m, l, axis));
    hide Total, Spread;
  }

  // Sums and then means of the splitting values on the three axes.
  method Means(m: Mesh, l: seq<nat>) returns (means: Point)
    requires ValidPrims(m, l) && l != []
    ensures means == Point(Mean(m, l, 0), Mean(m, l, 1), Mean(m, l, 2))
  {
    hide SplittingValue;
    means := Point(0.0, 0.0, 0.0);
    var i := 0;
    while i < |l|
      invariant 0 <= i <= |l|
      invariant means == Point(Total(m, l[..i], 0), Total(m, l[..i], 1), Total(m, l[..i], 2))
    {
      assert l[..i + 1][..i] == l[..i];
      var t := m.Tri(l[i]);
      means := Point(means.x + SplittingValue(t, 0), means.y + SplittingValue(t, 1), means.z + SplittingValue(t, 2));
      i := i + 1;
    }
    assert l[..i] == l;
    means := Point(means.x / (|l| as real), means.y / (|l| as real), means.z / (|l| as real));
  }

  method Variances(m: Mesh, l: seq<nat>, means: Point) returns (vars: Point)
    requires ValidPrims(m, l) && |l| > 1 && means == Point(Mean(m, l, 0), Mean(m, l, 1), Mean(m, l, 2))
    ensures vars == Point(Variance(m, l, 0), Variance(m, l, 1), Variance(m, l, 2))
  {
    hide SplittingValue, Sq, Mean;
    vars := Point(0.0, 0.0, 0.0);
    var i := 0;
    while i < |l|
      invariant 0 <= i <= |l|
      invariant vars == Point(Spread(m, l[..i], 0, means.x), Spread(m, l[..i], 1, means.y),
                              Spread(m, l[..i], 2, means.z))
    {
      assert l[..i + 1][..i] == l[..i];
      var t := m.Tri(l[i]);
      var cx, cy, cz := SplittingValue(t, 0), SplittingValue(t, 1), SplittingValue(t, 2);
      vars := Point(vars.x + Sq(cx - means.x), vars.y + Sq(cy - means.y), vars.z + Sq(cz - means.z));
      i := i + 1;
    }
    assert l[..i] == l;
    var d := (|l| - 1) as real;
    vars := Point(vars.x / d, vars.y / d, vars.z / d);
  }

  // The axis along which the splitting values vary most.
  method VarianceAxis(m: Mesh, l: seq<nat>) returns (axis: nat)
    requires ValidPrims(m, l) && |l| > 1
    ensures axis < 3 && forall a: nat :: a < 3 ==> Variance(m, l, a) <= Variance(m, l, axis)
    ensures forall a: nat :: a < axis ==> Variance(m, l, a) < Variance(m, l, axis)
  {
    hide Variance, Mean;
    var means := Means(m, l);
    var vars := Variances(m, l, means);
    axis := LargestAxis(vars);
    assert Component(vars, 0) == Variance(m, l, 0) && Component(vars, 1) == Variance(m, l, 1)
           && Component(vars, 2) == Variance(m, l, 2);
  }

  // Axis a is longer than axis c, or as long and numbered before it.
  predicate Goes(extents: Point, a: nat, c: nat)
    requires a < 3 && c < 3
  {
    Component(extents, a) > Component(extents, c) || (Component(extents, a) == Component(extents, c) && a <= c)
  }

  // Axes as long as each other stay in order.
  predicate Stable(extents: Point, sorted: seq<nat>)
    requires |sorted| == 3 && forall i :: 0 <= i < 3 ==> sorted[i] < 3
  {
    forall i, j :: 0 <= i < j < 3 && Component(extents, sorted[i]) == Component(extents, sorted[j]) ==>
      sorted[i] < sorted[j]
  }

  // The three axes, longest extent first, and those as long as each other in order.
  method SortAxes(extents: Point) returns (sorted: seq<nat>)
    ensures |sorted| == 3 && sorted[0] != sorted[1] && sorted[1] != sorted[2] && sorted[0] != sorted[2]
    ensures sorted[0] < 3 && sorted[1] < 3 && sorted[2] < 3
    ensures Goes(extents, sorted[0], sorted[1]) && Goes(extents, sorted[1], sorted[2])
  {
    sorted := [0, 1, 2];
    var j := 0;
    while j < 3
      invariant 0 <= j <= 3 && |sorted| == 3 && sorted[0] != sorted[1] && sorted[1] != sorted[2]
                && sorted[0] != sorted[2]
      invariant sorted[0] < 3 && sorted[1] < 3 && sorted[2] < 3 && Stable(extents, sorted)
      invariant j >= 1 ==> Component(extents, sorted[0]) >= Component(extents, sorted[2])
      invariant j >= 1 ==> Component(extents, sorted[1]) >= Component(extents, sorted[2])
      invariant j >= 2 ==> Component(extents, sorted[0]) >= Component(extents, sorted[1])
    {
      var i := 0;
      while i < 2
        invariant 0 <= i <= 2 && |sorted| == 3 && sorted[0] != sorted[1] && sorted[1] != sorted[2]
                  && sorted[0] != sorted[2]
        invariant sorted[0] < 3 && sorted[1] < 3 && sorted[2] < 3 && Stable(extents, sorted)
        invariant i == 1 ==> Component(extents, sorted[0]) >= Component(extents, sorted[1])
        invariant i == 2 || j >= 1 ==> Component(extents, sorted[0]) >= Component(extents, sorted[2])
        invariant i == 2 || j >= 1 ==> Component(extents, sorted[1]) >= Component(extents, sorted[2])
        invariant (j >= 1 && i >= 1) || j >= 2 ==> Component(extents, sorted[0]) >= Component(extents, sorted[1])
      {
        if Component(extents, sorted[i]) < Component(extents, sorted[i + 1]) {
          var tmp := sorted[i];
          sorted := sorted[i := sorted[i + 1]][i + 1 := tmp];
        }
        i := i + 1;
      }
      j := j + 1;
    }
  }
}
