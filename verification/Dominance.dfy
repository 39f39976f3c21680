// Dominance over the recorded edges of a numbered graph.
module Dominance {
  import opened Blocks

  // p is a walk from entry to b along recorded edges.
  ghost predicate Walk(preds: EdgeMap, entry: Id, p: seq<Id>, b: Id)
    decreases |p|
  {
    && |p| > 0
    && p[|p| - 1] == b
    && if |p| == 1 then b == entry
       else p[|p| - 2] in Edges(preds, b) && Walk(preds, entry, p[..|p| - 1], p[|p| - 2])
  }

  // Every walk from the entry to b goes through a.
  ghost predicate Dominates(preds: EdgeMap, entry: Id, a: Id, b: Id) {
    forall p: seq<Id> :: Walk(preds, entry, p, b) ==> a in p
  }

  ghost predicate StrictlyDominates(preds: EdgeMap, entry: Id, a: Id, b: Id) {
    a != b && Dominates(preds, entry, a, b)
  }

  // d is the immediate dominator of b: the strict dominator that all the others dominate.
  ghost predicate IsImmediateDominator(preds: EdgeMap, entry: Id, d: Id, b: Id) {
    && StrictlyDominates(preds, entry, d, b)
    && forall a :: StrictlyDominates(preds, entry, a, b) ==> Dominates(preds, entry, a, d)
  }

  // d is the nearest common dominator of the blocks in s.
  ghost predicate IsNearestCommonDominator(preds: EdgeMap, entry: Id, d: Id, s: set<Id>) {
    forall a :: Dominates(preds, entry, a, d) <==> forall b <- s :: Dominates(preds, entry, a, b)
  }

  // What the depth-first numbering promises about the recorded edges: numbers are distinct,
  // the entry has the largest, edges go down, and only the entry has no predecessor.
  ghost predicate Numbered(preds: EdgeMap, entry: Id, order: map<Id, nat>) {
    && entry in order
    && (forall b <- order :: 0 < order[b] <= order[entry])
    && (forall b <- order, c <- order :: order[b] == order[c] ==> b == c)
    && Descending(preds, order)
    && (forall b <- order :: b != entry ==> Edges(preds, b) != [])
  }

  ghost predicate Descending(preds: EdgeMap, order: map<Id, nat>) {
    forall b <- preds, p <- preds[b] :: p in order && b in order && order[p] > order[b]
  }

  lemma PredecessorIsHigher(preds: EdgeMap, entry: Id, order: map<Id, nat>, u: Id, b: Id)
    requires Numbered(preds, entry, order) && u in Edges(preds, b)
    ensures b in order && u in order && order[u] > order[b] && b != entry
  {
  }

  lemma {:induction false} WalkVisitsHigher(preds: EdgeMap, entry: Id, order: map<Id, nat>, p: seq<Id>, b: Id)
    requires Numbered(preds, entry, order)
    requires Walk(preds, entry, p, b)
    ensures b in order && forall x <- p :: x in order && order[x] >= order[b]
    decreases |p|
  {
    if |p| == 1 {
    } else {
      var q := p[..|p| - 1];
      WalkVisitsHigher(preds, entry, order, q, p[|p| - 2]);
      assert p == q + [b];
    }
  }

  lemma {:induction false} WalkExists(preds: EdgeMap, entry: Id, order: map<Id, nat>, b: Id) returns (p: seq<Id>)
    requires Numbered(preds, entry, order)
    requires b in order
    ensures Walk(preds, entry, p, b)
    decreases order[entry] - order[b]
  {
    if b == entry {
      p := [b];
    } else {
      var u := Edges(preds, b)[0];
      var q := WalkExists(preds, entry, order, u);
      p := q + [b];
      assert p[..|p| - 1] == q;
    }
  }

  lemma DominatorOrder(preds: EdgeMap, entry: Id, order: map<Id, nat>, a: Id, b: Id)
    requires Numbered(preds, entry, order)
    requires b in order && Dominates(preds, entry, a, b)
    ensures a in order && order[a] >= order[b]
    ensures order[a] == order[b] ==> a == b
  {
    var p := WalkExists(preds, entry, order, b);
    WalkVisitsHigher(preds, entry, order, p, b);
  }

  lemma SelfDominates(preds: EdgeMap, entry: Id, b: Id)
    ensures Dominates(preds, entry, b, b)
  {
  }

  // A block other than b dominates b exactly when it dominates all its predecessors.
  lemma DominatesThroughPredecessors(preds: EdgeMap, entry: Id, a: Id, b: Id)
    requires b != entry
    ensures Dominates(preds, entry, a, b) <==>
            a == b || forall u <- Edges(preds, b) :: Dominates(preds, entry, a, u)
  {
    if Dominates(preds, entry, a, b) && a != b {
      forall u <- Edges(preds, b), p: seq<Id> | Walk(preds, entry, p, u)
        ensures a in p
      {
        var q := p + [b];
        assert q[..|q| - 1] == p;
        assert Walk(preds, entry, q, b);
      }
    }
    if forall u <- Edges(preds, b) :: Dominates(preds, entry, a, u) {
      forall p: seq<Id> | Walk(preds, entry, p, b)
        ensures a in p
      {
        var q := p[..|p| - 1];
        assert Dominates(preds, entry, a, q[|q| - 1]);
        assert a in q;
      }
    }
  }

  lemma DominatesEntry(preds: EdgeMap, entry: Id, a: Id)
    ensures Dominates(preds, entry, a, entry) ==> a == entry
    ensures Dominates(preds, entry, entry, a)
  {
    assert Walk(preds, entry, [entry], entry);
    forall p: seq<Id> | Walk(preds, entry, p, a) ensures entry in p {
      WalkStartsAtEntry(preds, entry, p, a);
    }
  }

  lemma {:induction false} WalkStartsAtEntry(preds: EdgeMap, entry: Id, p: seq<Id>, b: Id)
    requires Walk(preds, entry, p, b)
    ensures entry in p
    decreases |p|
  {
    if |p| == 1 {
    } else {
      WalkStartsAtEntry(preds, entry, p[..|p| - 1], p[|p| - 2]);
    }
  }

  lemma {:induction false} DominatesTransitive(preds: EdgeMap, entry: Id, a: Id, b: Id, c: Id)
    requires Dominates(preds, entry, a, b) && Dominates(preds, entry, b, c)
    ensures Dominates(preds, entry, a, c)
  {
    forall p: seq<Id> | Walk(preds, entry, p, c) ensures a in p {
      var q := PrefixTo(preds, entry, p, c, b);
    }
  }

  // The part of a walk up to a block it goes through is a walk to that block.
  lemma {:induction false} PrefixTo(preds: EdgeMap, entry: Id, p: seq<Id>, c: Id, b: Id) returns (q: seq<Id>)
    requires Walk(preds, entry, p, c) && b in p
    ensures Walk(preds, entry, q, b) && forall x <- q :: x in p
    decreases |p|
  {
    if b == c {
      q := p;
    } else {
      var r := p[..|p| - 1];
      assert p == r + [c];
      q := PrefixTo(preds, entry, r, p[|p| - 2], b);
    }
  }

  // Dominance is antisymmetric on numbered blocks.
  lemma DominatesAntisymmetric(preds: EdgeMap, entry: Id, order: map<Id, nat>, a: Id, b: Id)
    requires Numbered(preds, entry, order)
    requires a in order && b in order
    requires Dominates(preds, entry, a, b) && Dominates(preds, entry, b, a)
    ensures a == b
  {
    DominatorOrder(preds, entry, order, a, b);
    DominatorOrder(preds, entry, order, b, a);
  }

  // A set of blocks has one nearest common dominator, so the order or repetition in which
  // blocks are combined cannot change it.
  lemma NearestCommonDominatorUnique(preds: EdgeMap, entry: Id, order: map<Id, nat>, d: Id, e: Id, s: set<Id>)
    requires Numbered(preds, entry, order)
    requires d in order && e in order
    requires IsNearestCommonDominator(preds, entry, d, s)
    requires IsNearestCommonDominator(preds, entry, e, s)
    ensures d == e
  {
    SelfDominates(preds, entry, d);
    SelfDominates(preds, entry, e);
    DominatesAntisymmetric(preds, entry, order, d, e);
  }

  // The table entry for b is right: the dominators of b are b and those of its entry.
  ghost predicate Exact(preds: EdgeMap, entry: Id, order: map<Id, nat>, idom: map<Id, Id>, b: Id)
    requires b in order
  {
    && b in idom
    && idom[b] in order
    && (if b == entry then idom[b] == entry
        else
          && order[idom[b]] > order[b]
          && forall a :: Dominates(preds, entry, a, b) <==> a == b || Dominates(preds, entry, a, idom[b]))
  }

  ghost predicate ExactAbove(preds: EdgeMap, entry: Id, order: map<Id, nat>, idom: map<Id, Id>, k: nat) {
    forall b <- order :: order[b] > k ==> Exact(preds, entry, order, idom, b)
  }

  lemma ExactEntry(preds: EdgeMap, entry: Id, order: map<Id, nat>, idom: map<Id, Id>, b: Id)
    requires b in order && Exact(preds, entry, order, idom, b)
    ensures b in idom && idom[b] in order && order[idom[b]] >= order[b]
  {
  }

  // Exactness above k only looks at table entries above k.
  lemma ExactAboveDepends(preds: EdgeMap, entry: Id, order: map<Id, nat>, idom: map<Id, Id>, other: map<Id, Id>, k: nat)
    requires ExactAbove(preds, entry, order, idom, k)
    requires forall b <- order :: order[b] > k && b in idom ==> b in other && other[b] == idom[b]
    ensures ExactAbove(preds, entry, order, other, k)
  {
    forall b <- order | order[b] > k ensures Exact(preds, entry, order, other, b) {
      assert Exact(preds, entry, order, idom, b);
    }
  }

  lemma ExactOneMore(preds: EdgeMap, entry: Id, order: map<Id, nat>, idom: map<Id, Id>, b: Id, i: nat)
    requires 0 < i && b in order
    requires forall c <- order :: order[c] == i ==> c == b
    requires ExactAbove(preds, entry, order, idom, i) && Exact(preds, entry, order, idom, b)
    ensures ExactAbove(preds, entry, order, idom, i - 1)
  {
    hide Exact;
  }

  // d dominates exactly what every block of the list is dominated by.
  ghost predicate Combines(preds: EdgeMap, entry: Id, d: Id, blocks: seq<Id>) {
    forall a :: Dominates(preds, entry, a, d) <==> forall u <- blocks :: Dominates(preds, entry, a, u)
  }

  lemma CombineOneMore(preds: EdgeMap, entry: Id, d: Id, blocks: seq<Id>, edge: Id, c: Id)
    requires Combines(preds, entry, d, blocks)
    requires IsNearestCommonDominator(preds, entry, c, {d, edge})
    ensures Combines(preds, entry, c, blocks + [edge])
  {
    hide Dominates;
  }

  lemma CombinedPredecessorsAreExact(preds: EdgeMap, entry: Id, order: map<Id, nat>, idom: map<Id, Id>, b: Id)
    requires b in order && b != entry && b in idom && idom[b] in order && order[idom[b]] > order[b]
    requires Combines(preds, entry, idom[b], Edges(preds, b))
    ensures Exact(preds, entry, order, idom, b)
  {
    forall a
      ensures Dominates(preds, entry, a, b) <==> a == b || Dominates(preds, entry, a, idom[b])
    {
      DominatesThroughPredecessors(preds, entry, a, b);
    }
  }

  lemma ExactIsImmediate(preds: EdgeMap, entry: Id, order: map<Id, nat>, idom: map<Id, Id>, b: Id)
    requires Numbered(preds, entry, order)
    requires b in order && b != entry && Exact(preds, entry, order, idom, b)
    ensures IsImmediateDominator(preds, entry, idom[b], b)
  {
    SelfDominates(preds, entry, idom[b]);
  }

  // One step of the climb: replacing the lower of two blocks by its immediate dominator
  // keeps the set of their common dominators.
  lemma ClimbKeepsCommonDominators(preds: EdgeMap, entry: Id, order: map<Id, nat>, idom: map<Id, Id>, a: Id, b: Id,
                                   d: Id)
    requires Numbered(preds, entry, order)
    requires a in order && b in order && order[a] < order[b]
    requires Exact(preds, entry, order, idom, a)
    ensures Dominates(preds, entry, d, a) && Dominates(preds, entry, d, b) <==>
            Dominates(preds, entry, d, idom[a]) && Dominates(preds, entry, d, b)
  {
    if d == a && Dominates(preds, entry, d, b) {
      DominatorOrder(preds, entry, order, d, b);
    }
  }

  // Putting back edges whose target already dominates their source changes no dominator.
  lemma {:induction false} RetreatingEdgesKeepDominators(preds: EdgeMap, full: EdgeMap, entry: Id, a: Id, b: Id)
    requires forall v, u :: u in Edges(preds, v) ==> u in Edges(full, v)
    requires forall v, u :: u in Edges(full, v) && u !in Edges(preds, v) ==> Dominates(preds, entry, v, u)
    ensures Dominates(preds, entry, a, b) <==> Dominates(full, entry, a, b)
  {
    if Dominates(full, entry, a, b) {
      forall p: seq<Id> | Walk(preds, entry, p, b) ensures a in p {
        WalkInLargerGraph(preds, full, entry, p, b);
      }
    }
    if Dominates(preds, entry, a, b) {
      forall p: seq<Id> | Walk(full, entry, p, b) ensures a in p {
        FullWalkMeetsDominator(preds, full, entry, a, p, b);
      }
    }
  }

  lemma {:induction false} WalkInLargerGraph(preds: EdgeMap, full: EdgeMap, entry: Id, p: seq<Id>, b: Id)
    requires forall v, u :: u in Edges(preds, v) ==> u in Edges(full, v)
    requires Walk(preds, entry, p, b)
    ensures Walk(full, entry, p, b)
    decreases |p|
  {
    if |p| == 1 {
    } else {
      WalkInLargerGraph(preds, full, entry, p[..|p| - 1], p[|p| - 2]);
    }
  }

  lemma {:induction false} FullWalkMeetsDominator(preds: EdgeMap, full: EdgeMap, entry: Id, a: Id, p: seq<Id>, b: Id)
    requires forall v, u :: u in Edges(full, v) && u !in Edges(preds, v) ==> Dominates(preds, entry, v, u)
    requires Walk(full, entry, p, b)
    requires Dominates(preds, entry, a, b)
    ensures a in p
    decreases |p|
  {
    if |p| == 1 {
      DominatesEntry(preds, entry, a);
    } else if a != b {
      var u := p[|p| - 2];
      if u in Edges(preds, b) {
        forall q: seq<Id> | Walk(preds, entry, q, u) ensures a in q {
          var r := q + [b];
          assert r[..|r| - 1] == q;
          assert Walk(preds, entry, r, b);
        }
      } else {
        DominatesTransitive(preds, entry, a, b, u);
      }
      FullWalkMeetsDominator(preds, full, entry, a, p[..|p| - 1], u);
    }
  }

  lemma NearestCommonDominatorOfOne(preds: EdgeMap, entry: Id, b: Id)
    ensures IsNearestCommonDominator(preds, entry, b, {b})
  {
  }

  // Combining one more block with the nearest common dominator so far.
  lemma NearestCommonDominatorOfMore(preds: EdgeMap, entry: Id, d: Id, s: set<Id>, b: Id, c: Id)
    requires IsNearestCommonDominator(preds, entry, d, s)
    requires if b == d then c == d else IsNearestCommonDominator(preds, entry, c, {b, d})
    ensures IsNearestCommonDominator(preds, entry, c, s + {b})
  {
    hide Dominates;
    forall a
      ensures Dominates(preds, entry, a, c) <==> forall x <- s + {b} :: Dominates(preds, entry, a, x)
    {
      assert Dominates(preds, entry, a, c) <==> Dominates(preds, entry, a, d) && Dominates(preds, entry, a, b);
    }
  }

  // The immediate dominator is the nearest common dominator of the predecessors.
  lemma ExactCombinesPredecessors(preds: EdgeMap, entry: Id, order: map<Id, nat>, idom: map<Id, Id>, b: Id, s: set<Id>)
    requires Numbered(preds, entry, order)
    requires b in order && b != entry && Exact(preds, entry, order, idom, b)
    requires forall u :: u in s <==> u in Edges(preds, b)
    ensures IsNearestCommonDominator(preds, entry, idom[b], s)
  {
    var l := Edges(preds, b);
    assert l[0] in s;
    forall a
      ensures Dominates(preds, entry, a, idom[b]) <==> forall u <- s :: Dominates(preds, entry, a, u)
    {
      DominatesThroughPredecessors(preds, entry, a, b);
      if a == b {
        if Dominates(preds, entry, a, idom[b]) {
          DominatorOrder(preds, entry, order, a, idom[b]);
        }
        if Dominates(preds, entry, a, l[0]) {
          PredecessorIsHigher(preds, entry, order, l[0], b);
          DominatorOrder(preds, entry, order, a, l[0]);
        }
      }
    }
  }

  lemma EntryDominates(preds: EdgeMap, entry: Id, s: set<Id>)
    ensures forall b <- s :: Dominates(preds, entry, entry, b)
  {
    forall b <- s ensures Dominates(preds, entry, entry, b) {
      DominatesEntry(preds, entry, b);
    }
  }
}
