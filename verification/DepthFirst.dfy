// The state of the post-order traversal as a value, its invariant, and the three steps
// that change it.
module DepthFirst {
  import opened Blocks
  import opened Dominance

  // order: 0 while a block is being visited, then its post-order number.
  // path: the blocks being visited when this one was discovered, itself last.
  datatype Dfs = Dfs(order: map<Id, nat>, post: seq<Id>, preds: EdgeMap, succs: EdgeMap, path: map<Id, seq<Id>>)

  ghost predicate Numbering(s: Dfs, stack: seq<Id>) {
    && (forall b <- s.order :: s.order[b] == 0 <==> b in stack)
    && (forall b <- s.order :: s.order[b] != 0 ==> s.order[b] <= |s.post| && s.post[s.order[b] - 1] == b)
    && (forall i :: 0 <= i < |s.post| ==> s.post[i] in s.order && s.order[s.post[i]] == i + 1)
  }

  ghost predicate NoDuplicates(l: seq<Id>) {
    forall i, j :: 0 <= i < j < |l| ==> l[i] != l[j]
  }

  // Both edge maps hold the same edges, once each, and every edge goes down.
  ghost predicate EdgesDown(prog: Program, s: Dfs) {
    && (forall u, v :: u in Edges(s.preds, v) <==> v in Edges(s.succs, u))
    && (forall v <- s.preds :: s.preds[v] != [] && NoDuplicates(s.preds[v]))
    && (forall u <- s.succs :: NoDuplicates(s.succs[u]))
    && (forall u, v :: u in Edges(s.preds, v) ==> GoesDown(prog, s, u, v))
  }

  ghost predicate GoesDown(prog: Program, s: Dfs, u: Id, v: Id) {
    && u in s.order && v in s.order && u in prog
    && s.order[v] != 0
    && (s.order[u] == 0 || s.order[u] > s.order[v])
    && v in VisitedTargets(prog[u])
  }

  // Each path is a chain of visit steps from the entry, and its members outlast its end.
  ghost predicate Paths(prog: Program, entry: Id, s: Dfs, stack: seq<Id>) {
    && s.path.Keys == s.order.Keys <= prog.Keys
    && (forall b <- s.path :: Chain(prog, entry, s.path[b], b))
    && (forall i :: 0 <= i < |stack| ==> stack[i] in s.path && s.path[stack[i]] == stack[..i + 1])
    && (forall b <- s.path, x <- s.path[b] :: Outlasts(s, x, b))
    && (forall b <- s.path, i: int | 0 <= i < |s.path[b]| :: ThroughPath(s, b, i))
  }

  // Every block on a path was entered along the part of it up to there.
  ghost predicate ThroughPath(s: Dfs, b: Id, i: int)
    requires b in s.path && 0 <= i < |s.path[b]|
  {
    s.path[b][i] in s.path && s.path[s.path[b][i]] == s.path[b][..i + 1]
  }

  ghost predicate Outlasts(s: Dfs, x: Id, b: Id) {
    x in s.order && b in s.order &&
    (s.order[x] != 0 && x != b ==> s.order[b] != 0 && s.order[x] > s.order[b])
  }

  // A forced target is recorded or was on the stack.
  ghost predicate TargetSettled(s: Dfs, u: Id, t: Id)
    requires u in s.path
  {
    t in s.order && (t in Edges(s.succs, u) || t in s.path[u])
  }

  // One block other than m is a recorded successor of u, and no third.
  ghost predicate OneWayIn(succs: EdgeMap, u: Id, m: Id) {
    exists x :: x != m && x in Edges(succs, u) && forall y <- Edges(succs, u) :: y == x || y == m
  }

  // A switch that leads to a single block apart from its merge block.
  ghost predicate LoneCase(prog: Program, succs: EdgeMap, u: Id, m: Id)
    requires u in prog
  {
    prog[u].terminator.MultiSelect? && OneWayIn(succs, u, m)
  }

  // x was numbered before u, or was being visited when u was.
  ghost predicate Earlier(s: Dfs, x: Id, u: Id)
    requires u in s.path && u in s.order
  {
    x in s.order && (x in s.path[u] || (s.order[x] != 0 && (s.order[u] == 0 || s.order[x] < s.order[u])))
  }

  // x is still being visited, or was numbered after u.
  ghost predicate Later(s: Dfs, x: Id, u: Id)
    requires u in s.order
  {
    x != u && x in s.order && (s.order[x] == 0 || (s.order[u] != 0 && s.order[x] > s.order[u]))
  }

  // The edge from u to m was recorded when u was about to be numbered: at position i, after those of
  // earlier blocks and before those of later ones.
  ghost predicate PlacedAt(s: Dfs, u: Id, m: Id, i: int)
    requires u in s.path && u in s.order && 0 <= i < |Edges(s.preds, m)|
  {
    var pred := Edges(s.preds, m);
    && pred[i] == u
    && (forall j :: 0 <= j < i ==> Earlier(s, pred[j], u))
    && (forall j :: i < j < |pred| ==> Later(s, pred[j], u))
  }

  // The same for one of the first n positions.
  ghost predicate Placed(s: Dfs, u: Id, m: Id, n: int)
    requires u in s.path && u in s.order
  {
    exists i :: 0 <= i < n && i < |Edges(s.preds, m)| && PlacedAt(s, u, m, i)
  }

  // When a merge block that was not on the stack has an edge from its header: always after a switch
  // with a lone case. Otherwise, unless it is a jump target too, the edge was its first or its
  // second when it was recorded; and if there is none, two others came before.
  ghost predicate MergeSettled(prog: Program, s: Dfs, u: Id, m: Id)
    requires u in s.path && u in s.order && u in prog
  {
    && m in s.order
    && (m !in s.path[u] ==>
          && (LoneCase(prog, s.succs, u, m) ==> u in Edges(s.preds, m))
          && (u in Edges(s.preds, m) && m !in JumpTargets(prog[u]) ==>
                Placed(s, u, m, if LoneCase(prog, s.succs, u, m) then |Edges(s.preds, m)| else 2))
          && (u !in Edges(s.preds, m) ==> FirstAreEarlier(s, u, m)))
  }

  ghost predicate FirstAreEarlier(s: Dfs, u: Id, m: Id)
    requires u in s.path && u in s.order
  {
    |Edges(s.preds, m)| >= 2 && Earlier(s, Edges(s.preds, m)[0], u) && Earlier(s, Edges(s.preds, m)[1], u)
  }

  ghost predicate BlockSettled(prog: Program, s: Dfs, u: Id)
    requires u in s.path && u in s.order && u in prog
  {
    && (forall t <- ForcedTargets(prog[u]) :: TargetSettled(s, u, t))
    && (prog[u].merge.MergeSelection? ==> MergeSettled(prog, s, u, prog[u].next))
  }

  ghost predicate Settled(prog: Program, s: Dfs)
    requires s.path.Keys == s.order.Keys <= prog.Keys
  {
    forall u <- s.order :: s.order[u] != 0 ==> BlockSettled(prog, s, u)
  }

  // Every finished block but the entry and newest has a recorded predecessor.
  ghost predicate Entered(s: Dfs, entry: Id, newest: Id) {
    forall b <- s.order :: s.order[b] != 0 && b != entry && b != newest ==> Edges(s.preds, b) != []
  }

  // t was numbered before x is.
  ghost predicate Sooner(s: Dfs, t: Id, x: Id) {
    t in s.order && x in s.order && s.order[t] != 0 && (s.order[x] == 0 || s.order[t] < s.order[x])
  }

  // Position i of the path to x was entered when the earlier targets of the block before it were
  // either being visited or numbered.
  ghost predicate StepOrdered(prog: Program, s: Dfs, x: Id, i: int)
    requires x in s.path && 0 < i < |s.path[x]|
  {
    var p := s.path[x];
    p[i - 1] in prog
    && forall t <- Preceding(VisitedTargets(prog[p[i - 1]]), p[i]) :: t in p[..i] || Sooner(s, t, x)
  }

  // Each block enters its targets in order.
  ghost predicate Ordered(prog: Program, s: Dfs) {
    forall x <- s.path, i: int | 0 < i < |s.path[x]| :: StepOrdered(prog, s, x, i)
  }

  ghost predicate Invariant(prog: Program, entry: Id, s: Dfs, stack: seq<Id>, newest: Id) {
    && Numbering(s, stack)
    && EdgesDown(prog, s)
    && Paths(prog, entry, s, stack)
    && Settled(prog, s)
    && Entered(s, entry, newest)
    && Ordered(prog, s)
  }

  // What a traversal step leaves alone: numbers given, paths, and edges out of known blocks.
  ghost predicate Extends(s: Dfs, t: Dfs) {
    && s.order.Keys <= t.order.Keys
    && (forall b <- s.order :: t.order[b] == s.order[b])
    && (forall b <- s.path :: b in t.path && t.path[b] == s.path[b])
    && (forall b <- s.order :: Edges(t.succs, b) == Edges(s.succs, b))
    && (forall v :: Edges(s.preds, v) <= Edges(t.preds, v))
  }

  // As Extends, but edges out of u may also have been added.
  ghost predicate ExtendsFrom(s: Dfs, t: Dfs, u: Id) {
    && s.order.Keys <= t.order.Keys
    && (forall b <- s.order :: t.order[b] == s.order[b])
    && (forall b <- s.path :: b in t.path && t.path[b] == s.path[b])
    && (forall b <- s.order :: b != u ==> Edges(t.succs, b) == Edges(s.succs, b))
    && Edges(s.succs, u) <= Edges(t.succs, u)
    && (forall v :: Edges(s.preds, v) <= Edges(t.preds, v))
  }

  lemma ExtendsIsFrom(s: Dfs, t: Dfs, u: Id)
    requires Extends(s, t) && u in s.order && u in s.path
    ensures ExtendsFrom(s, t, u) && Edges(t.succs, u) == Edges(s.succs, u)
    ensures u in t.order && t.order[u] == s.order[u] && u in t.path && t.path[u] == s.path[u]
  {
  }

  lemma ExtendsFromKeeps(s: Dfs, t: Dfs, u: Id)
    requires ExtendsFrom(s, t, u) && u in s.order && u in s.path
    ensures s.order.Keys <= t.order.Keys
    ensures u in t.order && t.order[u] == s.order[u] && u in t.path && t.path[u] == s.path[u]
  {
  }

  lemma ExtendsFromSelf(s: Dfs, u: Id)
    ensures ExtendsFrom(s, s, u)
  {
  }

  lemma ExtendsFromTransitive(s: Dfs, t: Dfs, w: Dfs, u: Id)
    requires ExtendsFrom(s, t, u) && ExtendsFrom(t, w, u)
    ensures ExtendsFrom(s, w, u)
  {
  }

  // A block's whole visit extends what was there before it.
  lemma FinishExtends(s: Dfs, found: Dfs, last: Dfs, b: Id, stack: seq<Id>)
    requires b !in s.order && b !in s.path && found == Discover(s, b, stack)
    requires Edges(s.succs, b) == []
    requires ExtendsFrom(found, last, b)
    ensures Extends(s, Finish(last, b))
  {
  }

  lemma UndiscoveredHasNoEdges(prog: Program, entry: Id, s: Dfs, b: Id, stack: seq<Id>, newest: Id)
    requires Invariant(prog, entry, s, stack, newest) && b !in s.order
    ensures Edges(s.succs, b) == []
  {
    hide Numbering, Paths, Settled, Entered;
    var l := Edges(s.succs, b);
    assert |l| > 0 ==> l[0] in l;
    forall v | v in l ensures false {
      assert GoesDown(prog, s, b, v) by { assert b in Edges(s.preds, v); }
    }
  }

  lemma PredecessorListsNonEmpty(prog: Program, entry: Id, s: Dfs, stack: seq<Id>, newest: Id)
    requires Invariant(prog, entry, s, stack, newest)
    ensures forall v <- s.preds :: s.preds[v] != []
  {
    hide Numbering, Paths, Settled, Entered;
  }

  lemma TargetStaysSettled(s: Dfs, t: Dfs, u: Id, target: Id)
    requires u in s.path && ExtendsFrom(s, t, u) && TargetSettled(s, u, target)
    ensures u in t.path && TargetSettled(t, u, target)
  {
  }

  // What decides a merge block's implied edge does not change once its header is numbered: edges out
  // of the header stay, and edges into the merge block only follow the ones that are there.
  lemma MergeStaysSettled(prog: Program, s: Dfs, t: Dfs, u: Id, m: Id)
    requires u in s.path && u in s.order && u in prog && MergeSettled(prog, s, u, m)
    requires u in t.path && u in t.order && t.path[u] == s.path[u] && m in t.order
    requires Edges(t.succs, u) == Edges(s.succs, u) && Edges(s.preds, m) <= Edges(t.preds, m)
    requires u in Edges(t.preds, m) ==> u in Edges(s.preds, m)
    requires forall x <- s.order :: Earlier(s, x, u) ==> Earlier(t, x, u)
    requires forall x <- s.order :: Later(s, x, u) ==> Later(t, x, u)
    requires forall j :: |Edges(s.preds, m)| <= j < |Edges(t.preds, m)| ==> Later(t, Edges(t.preds, m)[j], u)
    ensures MergeSettled(prog, t, u, m)
  {
    hide Earlier, Later, Placed;
    assert OneWayIn(t.succs, u, m) == OneWayIn(s.succs, u, m);
    forall n: int | n <= |Edges(s.preds, m)| || n == 2 ensures Placed(s, u, m, n) ==> Placed(t, u, m, n) {
      if Placed(s, u, m, n) {
        StaysPlaced(s, t, u, m, n);
      }
    }
    if Placed(s, u, m, |Edges(s.preds, m)|) {
      PlacedInLonger(t, u, m, |Edges(s.preds, m)|);
    }
    if |Edges(s.preds, m)| >= 2 {
      assert Edges(t.preds, m)[0] == Edges(s.preds, m)[0] && Edges(t.preds, m)[1] == Edges(s.preds, m)[1];
    }
    if FirstAreEarlier(s, u, m) {
      EarlierIsKnown(s, Edges(s.preds, m)[0], u);
      EarlierIsKnown(s, Edges(s.preds, m)[1], u);
    }
  }

  lemma PlacedInLonger(s: Dfs, u: Id, m: Id, n: int)
    requires u in s.path && u in s.order && Placed(s, u, m, n) && n <= |Edges(s.preds, m)|
    ensures Placed(s, u, m, |Edges(s.preds, m)|)
  {
    hide PlacedAt;
  }

  lemma StaysPlaced(s: Dfs, t: Dfs, u: Id, m: Id, n: int)
    requires u in s.path && u in s.order && u in t.path && u in t.order && Placed(s, u, m, n)
    requires Edges(s.preds, m) <= Edges(t.preds, m)
    requires forall x <- s.order :: Earlier(s, x, u) ==> Earlier(t, x, u)
    requires forall x <- s.order :: Later(s, x, u) ==> Later(t, x, u)
    requires forall j :: |Edges(s.preds, m)| <= j < |Edges(t.preds, m)| ==> Later(t, Edges(t.preds, m)[j], u)
    ensures Placed(t, u, m, n)
  {
    var i :| 0 <= i < n && i < |Edges(s.preds, m)| && PlacedAt(s, u, m, i);
    var pred, pred' := Edges(s.preds, m), Edges(t.preds, m);
    forall j | 0 <= j < |pred'| && j != i
      ensures if j < i then Earlier(t, pred'[j], u) else Later(t, pred'[j], u)
    {
      assert j < |pred| ==> pred'[j] == pred[j];
      assert j < |pred| ==> if j < i then Earlier(s, pred[j], u) else Later(s, pred[j], u);
    }
    assert PlacedAt(t, u, m, i);
  }

  lemma EarlierIsKnown(s: Dfs, x: Id, u: Id)
    requires u in s.path && u in s.order && Earlier(s, x, u)
    ensures x in s.order
  {
  }

  function AddUnique(l: seq<Id>, value: Id): (r: seq<Id>)
    ensures forall x :: x in r <==> x in l || x == value
  {
    if value in l then l else l + [value]
  }

  function Discover(s: Dfs, b: Id, stack: seq<Id>): Dfs {
    s.(order := s.order[b := 0], path := s.path[b := stack + [b]])
  }

  function AddBranch(s: Dfs, u: Id, v: Id): Dfs {
    s.(preds := s.preds[v := AddUnique(Edges(s.preds, v), u)],
       succs := s.succs[u := AddUnique(Edges(s.succs, u), v)])
  }

  function Finish(s: Dfs, b: Id): Dfs {
    s.(order := s.order[b := |s.post| + 1], post := s.post + [b])
  }

  lemma StackIsVisiting(prog: Program, entry: Id, s: Dfs, stack: seq<Id>, newest: Id)
    requires Invariant(prog, entry, s, stack, newest)
    ensures forall x <- stack :: x in s.order && s.order[x] == 0
    ensures forall x <- s.order :: s.order[x] == 0 ==> x in stack
    ensures s.path.Keys == s.order.Keys <= prog.Keys
  {
    hide EdgesDown, Settled, Entered;
    forall x <- stack ensures x in s.order && s.order[x] == 0 {
      var i :| 0 <= i < |stack| && stack[i] == x;
      assert stack[i] in s.path;
    }
  }

  // While the top of the stack is being visited, no finished block lacks a predecessor.
  lemma Exempt(prog: Program, entry: Id, s: Dfs, stack: seq<Id>, u: Id, b: Id)
    requires Invariant(prog, entry, s, stack, u)
    requires (u in s.order && s.order[u] == 0) || Edges(s.preds, u) != [] || u == b || u !in s.order
    ensures Invariant(prog, entry, s, stack, b)
  {
    hide Numbering, Paths, EdgesDown, Settled;
  }

  // ---- a block is discovered

  ghost predicate MayEnter(prog: Program, entry: Id, b: Id, stack: seq<Id>) {
    && b in prog
    && if stack == [] then b == entry
       else stack[|stack| - 1] in prog && b in VisitedTargets(prog[stack[|stack| - 1]])
  }

  lemma DiscoverChain(prog: Program, entry: Id, s: Dfs, b: Id, stack: seq<Id>)
    requires Paths(prog, entry, s, stack) && MayEnter(prog, entry, b, stack)
    ensures Chain(prog, entry, stack + [b], b)
  {
    if stack != [] {
      var top := stack[|stack| - 1];
      assert s.path[top] == stack[..|stack|] == stack;
      assert Chain(prog, entry, stack, top);
    }
  }

  lemma DiscoverOutlasts(prog: Program, entry: Id, s: Dfs, b: Id, stack: seq<Id>)
    requires Paths(prog, entry, s, stack) && b !in s.order
    requires forall x <- stack :: x in s.order && s.order[x] == 0
    ensures var t := Discover(s, b, stack); forall c <- t.path, x <- t.path[c] :: Outlasts(t, x, c)
  {
    hide Chain;
    var t := Discover(s, b, stack);
    forall c <- t.path, x <- t.path[c] ensures Outlasts(t, x, c) {
      if c != b {
        assert Outlasts(s, x, c);
      }
    }
  }

  lemma DiscoverThrough(prog: Program, entry: Id, s: Dfs, b: Id, stack: seq<Id>)
    requires Paths(prog, entry, s, stack) && b !in s.path
    ensures var t := Discover(s, b, stack);
            forall c <- t.path, i: int | 0 <= i < |t.path[c]| :: ThroughPath(t, c, i)
  {
    hide Chain, Outlasts;
    var t, p := Discover(s, b, stack), stack + [b];
    forall c <- t.path, i: int | 0 <= i < |t.path[c]| ensures ThroughPath(t, c, i) {
      if c != b {
        assert ThroughPath(s, c, i);
      } else if i < |stack| {
        assert stack[i] in s.path && p[..i + 1] == stack[..i + 1];
      } else {
        assert p[..i + 1] == p;
      }
    }
  }

  lemma DiscoverPaths(prog: Program, entry: Id, s: Dfs, b: Id, stack: seq<Id>)
    requires Paths(prog, entry, s, stack)
    requires b !in s.order && MayEnter(prog, entry, b, stack)
    requires forall x <- stack :: x in s.order && s.order[x] == 0
    ensures Paths(prog, entry, Discover(s, b, stack), stack + [b])
  {
    DiscoverChain(prog, entry, s, b, stack);
    DiscoverOutlasts(prog, entry, s, b, stack);
    DiscoverThrough(prog, entry, s, b, stack);
    hide Chain, Outlasts, ThroughPath;
    var t, p := Discover(s, b, stack), stack + [b];
    forall i | 0 <= i < |p| ensures p[i] in t.path && t.path[p[i]] == p[..i + 1] {
      if i < |stack| {
        assert stack[i] in s.path;
        assert p[..i + 1] == stack[..i + 1];
      } else {
        assert p[..i + 1] == p;
      }
    }
  }

  lemma DiscoverNumbering(s: Dfs, b: Id, stack: seq<Id>)
    requires Numbering(s, stack) && b !in s.order
    requires forall x <- stack :: x in s.order
    ensures Numbering(Discover(s, b, stack), stack + [b])
  {
  }

  lemma DiscoverEdges(prog: Program, s: Dfs, b: Id, stack: seq<Id>)
    requires EdgesDown(prog, s) && b !in s.order
    ensures EdgesDown(prog, Discover(s, b, stack))
  {
  }

  lemma MergeKnown(prog: Program, s: Dfs, u: Id, m: Id)
    requires u in s.path && u in s.order && u in prog && MergeSettled(prog, s, u, m)
    ensures m in s.order
  {
  }

  lemma DiscoverSettled(prog: Program, s: Dfs, b: Id, stack: seq<Id>)
    requires s.path.Keys == s.order.Keys <= prog.Keys
    requires Settled(prog, s) && b !in s.order && b in prog
    ensures Settled(prog, Discover(s, b, stack))
  {
    var t := Discover(s, b, stack);
    hide MergeSettled;
    forall u <- t.order | t.order[u] != 0 ensures BlockSettled(prog, t, u) {
      assert BlockSettled(prog, s, u);
      if prog[u].merge.MergeSelection? {
        MergeKnown(prog, s, u, prog[u].next);
        MergeStaysSettled(prog, s, t, u, prog[u].next);
      }
    }
  }

  // The targets of the top of the stack before b have all been entered.
  ghost predicate Turn(prog: Program, s: Dfs, b: Id, stack: seq<Id>) {
    stack != [] ==>
      var top := stack[|stack| - 1];
      top in prog && forall t <- Preceding(VisitedTargets(prog[top]), b) :: t in s.order
  }

  // It is the turn of a target when those listed before it have been entered.
  lemma TurnOf(prog: Program, s: Dfs, u: Id, stack: seq<Id>, before: seq<Id>, b: Id, after: seq<Id>)
    requires stack != [] && stack[|stack| - 1] == u && u in prog
    requires VisitedTargets(prog[u]) == before + [b] + after && forall t <- before :: t in s.order
    ensures Turn(prog, s, b, stack)
  {
    PrecedingIn(before, b, after);
  }

  lemma DiscoverOrdered(prog: Program, s: Dfs, b: Id, stack: seq<Id>)
    requires Ordered(prog, s) && Turn(prog, s, b, stack) && b !in s.order && b !in s.path
    requires forall x <- s.order :: s.order[x] == 0 ==> x in stack
    requires stack != [] ==> stack[|stack| - 1] in s.path && s.path[stack[|stack| - 1]] == stack
    ensures Ordered(prog, Discover(s, b, stack))
  {
    var t := Discover(s, b, stack);
    forall x <- t.path, i: int | 0 < i < |t.path[x]| ensures StepOrdered(prog, t, x, i) {
      if x != b {
        assert StepOrdered(prog, s, x, i);
      } else if i < |stack| {
        assert StepOrdered(prog, s, stack[|stack| - 1], i);
        assert (stack + [b])[..i] == stack[..i];
      } else {
        assert (stack + [b])[..i] == stack;
      }
    }
  }

  lemma DiscoverKeeps(prog: Program, entry: Id, s: Dfs, b: Id, stack: seq<Id>)
    requires Invariant(prog, entry, s, stack, b)
    requires b !in s.order && MayEnter(prog, entry, b, stack) && Turn(prog, s, b, stack)
    ensures Invariant(prog, entry, Discover(s, b, stack), stack + [b], b)
    ensures Extends(s, Discover(s, b, stack))
  {
    hide Paths, EdgesDown, Settled, Numbering, Chain, Ordered, Turn;
    StackIsVisiting(prog, entry, s, stack, b);
    TopPath(prog, entry, s, stack);
    DiscoverOrdered(prog, s, b, stack);
    DiscoverPaths(prog, entry, s, b, stack);
    DiscoverNumbering(s, b, stack);
    DiscoverEdges(prog, s, b, stack);
    DiscoverSettled(prog, s, b, stack);
  }

  lemma TopPath(prog: Program, entry: Id, s: Dfs, stack: seq<Id>)
    requires Paths(prog, entry, s, stack)
    ensures stack != [] ==> stack[|stack| - 1] in s.path && s.path[stack[|stack| - 1]] == stack
  {
    hide Chain, Outlasts;
    if stack != [] {
      assert stack[..|stack| - 1 + 1] == stack;
    }
  }

  // ---- an edge is recorded

  lemma AddBranchEdges(prog: Program, s: Dfs, u: Id, v: Id)
    requires EdgesDown(prog, s)
    requires u in s.order && s.order[u] == 0 && u in prog
    requires v in VisitedTargets(prog[u])
    requires v in s.order && s.order[v] != 0
    ensures EdgesDown(prog, AddBranch(s, u, v))
  {
    var t := AddBranch(s, u, v);
    forall x, y ensures x in Edges(t.preds, y) <==> y in Edges(t.succs, x) {
      assert x in Edges(s.preds, y) <==> y in Edges(s.succs, x);
    }
    forall x, y | x in Edges(t.preds, y) ensures GoesDown(prog, t, x, y) {
      assert x in Edges(s.preds, y) || (x == u && y == v);
    }
  }

  lemma AddBranchSettled(prog: Program, s: Dfs, u: Id, v: Id)
    requires s.path.Keys == s.order.Keys <= prog.Keys
    requires Settled(prog, s) && u in s.order && s.order[u] == 0
    ensures Settled(prog, AddBranch(s, u, v))
  {
    var t := AddBranch(s, u, v);
    hide MergeSettled;
    forall w <- t.order | t.order[w] != 0 ensures BlockSettled(prog, t, w) {
      assert BlockSettled(prog, s, w);
      if prog[w].merge.MergeSelection? {
        MergeKnown(prog, s, w, prog[w].next);
        MergeStaysSettled(prog, s, t, w, prog[w].next);
      }
    }
  }

  lemma AddBranchPaths(prog: Program, entry: Id, s: Dfs, u: Id, v: Id, stack: seq<Id>)
    requires Paths(prog, entry, s, stack)
    ensures Paths(prog, entry, AddBranch(s, u, v), stack)
  {
    hide Chain;
    var t := AddBranch(s, u, v);
    forall c <- t.path, x <- t.path[c] ensures Outlasts(t, x, c) {
      assert Outlasts(s, x, c);
    }
    hide Outlasts;
    forall c <- t.path, i: int | 0 <= i < |t.path[c]| ensures ThroughPath(t, c, i) {
      assert ThroughPath(s, c, i);
    }
  }

  lemma AddBranchEntered(s: Dfs, entry: Id, u: Id, v: Id, newest: Id)
    requires Entered(s, entry, newest) && (newest == u || newest == v)
    ensures Entered(AddBranch(s, u, v), entry, u)
  {
  }

  lemma AddBranchOrdered(prog: Program, s: Dfs, u: Id, v: Id)
    requires Ordered(prog, s)
    ensures Ordered(prog, AddBranch(s, u, v))
  {
    var t := AddBranch(s, u, v);
    forall x <- t.path, i: int | 0 < i < |t.path[x]| ensures StepOrdered(prog, t, x, i) {
      assert StepOrdered(prog, s, x, i);
    }
  }

  lemma AddBranchKeeps(prog: Program, entry: Id, s: Dfs, u: Id, v: Id, stack: seq<Id>, newest: Id)
    requires Invariant(prog, entry, s, stack, newest)
    requires u in s.order && s.order[u] == 0
    requires v in VisitedTargets(prog[u])
    requires v in s.order && s.order[v] != 0
    requires newest == v || newest == u
    ensures Invariant(prog, entry, AddBranch(s, u, v), stack, u)
  {
    hide EdgesDown, Settled, Chain, Outlasts, Ordered, Paths;
    StackIsVisiting(prog, entry, s, stack, newest);
    AddBranchOrdered(prog, s, u, v);
    AddBranchEdges(prog, s, u, v);
    AddBranchSettled(prog, s, u, v);
    AddBranchPaths(prog, entry, s, u, v, stack);
    AddBranchEntered(s, entry, u, v, newest);
  }

  // The rule for a merge block that was entered: an edge if it has none, or after a switch with a
  // single recorded successor, or if its only edge is not the header's.
  predicate ImpliesEdge(prog: Program, s: Dfs, u: Id, m: Id)
    requires u in prog
  {
    var pred := Edges(s.preds, m);
    || pred == []
    || (prog[u].terminator.MultiSelect? && |Edges(s.succs, u)| == 1)
    || (|pred| == 1 && pred[0] != u)
  }

  // After a switch with a lone case the rule says yes, unless the edge is there.
  lemma RuleAfterLoneCase(prog: Program, s: Dfs, u: Id, m: Id)
    requires forall w <- s.succs :: NoDuplicates(s.succs[w])
    requires u in prog && (u in Edges(s.preds, m) <==> m in Edges(s.succs, u))
    ensures var t := if ImpliesEdge(prog, s, u, m) then AddBranch(s, u, m) else s;
            LoneCase(prog, t.succs, u, m) ==> u in Edges(t.preds, m)
  {
    var t := if ImpliesEdge(prog, s, u, m) then AddBranch(s, u, m) else s;
    if LoneCase(prog, t.succs, u, m) && m !in Edges(s.succs, u) {
      OneWayIsOne(s, t, u, m);
    }
  }

  // An edge the rule adds comes last, and first or second unless there is a lone case.
  lemma RulePlacesEdge(prog: Program, s: Dfs, u: Id, m: Id)
    requires forall x <- Edges(s.preds, m) :: x in s.order && u in s.path && u in s.order && Earlier(s, x, u)
    requires u in prog && u in s.path && u in s.order && ImpliesEdge(prog, s, u, m) && m !in Edges(s.succs, u)
    requires u !in Edges(s.preds, m)
    ensures var t := AddBranch(s, u, m);
            Placed(t, u, m, if LoneCase(prog, t.succs, u, m) then |Edges(t.preds, m)| else 2)
  {
    var pred, succ, t := Edges(s.preds, m), Edges(s.succs, u), AddBranch(s, u, m);
    assert |succ| == 1 ==> succ[0] in Edges(t.succs, u);
    assert Edges(t.preds, m) == pred + [u];
    forall j | 0 <= j < |pred| ensures Earlier(t, pred[j], u) {
      assert pred[j] in pred;
    }
    assert PlacedAt(t, u, m, |pred|);
  }

  lemma AllEarlier(prog: Program, s: Dfs, u: Id, m: Id)
    requires EdgesDown(prog, s) && u in s.path && u in s.order && s.order[u] == 0
    requires forall x <- s.order :: s.order[x] == 0 ==> x in s.path[u]
    ensures forall x <- Edges(s.preds, m) :: x in s.order && Earlier(s, x, u)
  {
    forall x <- Edges(s.preds, m) ensures x in s.order && Earlier(s, x, u) {
      assert GoesDown(prog, s, x, m);
    }
  }

  // Adding the edge just when the rule says so settles the merge block.
  lemma RuleSettlesMerge(prog: Program, s: Dfs, u: Id, m: Id)
    requires EdgesDown(prog, s) && u in prog && u in s.path && u in s.order && s.order[u] == 0 && m in s.order
    requires forall x <- s.order :: s.order[x] == 0 ==> x in s.path[u]
    requires u in Edges(s.preds, m) ==> m in JumpTargets(prog[u])
    ensures MergeSettled(prog, if ImpliesEdge(prog, s, u, m) then AddBranch(s, u, m) else s, u, m)
  {
    var pred := Edges(s.preds, m);
    assert u in pred <==> m in Edges(s.succs, u);
    AllEarlier(prog, s, u, m);
    RuleAfterLoneCase(prog, s, u, m);
    hide EdgesDown, LoneCase, JumpTargets, Placed, Earlier;
    if ImpliesEdge(prog, s, u, m) {
      if u !in pred {
        RulePlacesEdge(prog, s, u, m);
      }
    } else if u !in pred {
      assert pred[0] in pred && pred[1] in pred;
    }
  }

  lemma OneWayIsOne(s: Dfs, t: Dfs, u: Id, m: Id)
    requires forall w <- s.succs :: NoDuplicates(s.succs[w])
    requires m !in Edges(s.succs, u) && OneWayIn(t.succs, u, m)
    requires forall x :: x != m ==> (x in Edges(t.succs, u) <==> x in Edges(s.succs, u))
    ensures |Edges(s.succs, u)| == 1
  {
    var l := Edges(s.succs, u);
    assert |l| >= 2 ==> l[0] != l[1];
    var x :| x != m && x in Edges(t.succs, u) && forall y <- Edges(t.succs, u) :: y == x || y == m;
    assert x in l;
    forall i | 0 <= i < |l| ensures l[i] == x {
      assert l[i] in l;
    }
  }

  lemma AddBranchGrows(s: Dfs, u: Id, v: Id)
    ensures v in Edges(AddBranch(s, u, v).succs, u) && u in Edges(AddBranch(s, u, v).preds, v)
    ensures forall x <- Edges(AddBranch(s, u, v).succs, u) :: x in Edges(s.succs, u) || x == v
    ensures ExtendsFrom(s, AddBranch(s, u, v), u)
  {
  }

  // ---- a block is numbered

  lemma FinishStack(s: Dfs, b: Id, stack: seq<Id>)
    requires forall i :: 0 <= i < |stack + [b]| ==>
               (stack + [b])[i] in s.path && s.path[(stack + [b])[i]] == (stack + [b])[..i + 1]
    ensures b in s.path && s.path[b] == stack + [b]
    ensures forall i :: 0 <= i < |stack| ==> stack[i] in s.path && s.path[stack[i]] == stack[..i + 1]
  {
    var p := stack + [b];
    assert p[|stack|] in s.path && s.path[b] == p[..|stack| + 1] == p;
    forall i | 0 <= i < |stack| ensures stack[i] in s.path && s.path[stack[i]] == stack[..i + 1] {
      assert p[i] in s.path && p[..i + 1] == stack[..i + 1];
    }
  }

  lemma FinishOutlasts(s: Dfs, b: Id, stack: seq<Id>)
    requires Numbering(s, stack + [b]) && b !in stack && b in s.path && s.path[b] == stack + [b]
    requires b in s.order && s.order[b] == 0
    requires forall i :: 0 <= i < |stack| ==> stack[i] in s.path && s.path[stack[i]] == stack[..i + 1]
    requires forall c <- s.path, x <- s.path[c] :: Outlasts(s, x, c)
    ensures var t := Finish(s, b); forall c <- t.path, x <- t.path[c] :: Outlasts(t, x, c)
  {
    var t := Finish(s, b);
    forall c <- stack ensures c in s.path && b !in s.path[c] {
      var i :| 0 <= i < |stack| && stack[i] == c;
      assert s.path[c] == stack[..i + 1];
    }
    forall c <- t.path, x <- t.path[c] ensures Outlasts(t, x, c) {
      assert Outlasts(s, x, c);
      if c == b && x != b {
        assert x in stack + [b];
      }
      assert s.order[c] == 0 ==> c in stack + [b];
    }
  }

  lemma FinishPaths(prog: Program, entry: Id, s: Dfs, b: Id, stack: seq<Id>)
    requires Numbering(s, stack + [b])
    requires Paths(prog, entry, s, stack + [b])
    requires b !in stack
    ensures b in s.order && s.order[b] == 0
    ensures Paths(prog, entry, Finish(s, b), stack)
  {
    FinishStack(s, b, stack);
    assert b in stack + [b];
    FinishOutlasts(s, b, stack);
    hide Outlasts, Chain, Numbering;
    var t := Finish(s, b);
    forall c <- t.path, i: int | 0 <= i < |t.path[c]| ensures ThroughPath(t, c, i) {
      assert ThroughPath(s, c, i);
    }
  }

  lemma FinishNumbering(s: Dfs, b: Id, stack: seq<Id>)
    requires Numbering(s, stack + [b])
    requires b !in stack && b in s.order && s.order[b] == 0
    ensures Numbering(Finish(s, b), stack)
  {
    var t := Finish(s, b);
    forall c <- t.order ensures t.order[c] == 0 <==> c in stack {
      if c != b {
        assert c in stack + [b] <==> c in stack;
      }
    }
  }

  lemma FinishEdges(prog: Program, s: Dfs, b: Id, stack: seq<Id>)
    requires Numbering(s, stack)
    requires EdgesDown(prog, s)
    requires b in s.order && s.order[b] == 0
    ensures EdgesDown(prog, Finish(s, b))
  {
    var t := Finish(s, b);
    forall x, y | x in Edges(t.preds, y) ensures GoesDown(prog, t, x, y) {
      assert GoesDown(prog, s, x, y);
    }
  }

  lemma FinishSettled(prog: Program, s: Dfs, b: Id)
    requires s.path.Keys == s.order.Keys <= prog.Keys
    requires Settled(prog, s) && forall x <- s.order :: s.order[x] <= |s.post|
    requires b in s.order && s.order[b] == 0 && BlockSettled(prog, s, b)
    ensures Settled(prog, Finish(s, b))
  {
    var t := Finish(s, b);
    hide MergeSettled;
    forall u <- t.order | t.order[u] != 0 ensures BlockSettled(prog, t, u) {
      assert BlockSettled(prog, s, u);
      if prog[u].merge.MergeSelection? {
        MergeKnown(prog, s, u, prog[u].next);
        MergeStaysSettled(prog, s, t, u, prog[u].next);
      }
    }
  }

  lemma FinishOrdered(prog: Program, s: Dfs, b: Id)
    requires Ordered(prog, s) && b in s.order && s.order[b] == 0
    requires forall x <- s.order :: s.order[x] <= |s.post|
    ensures Ordered(prog, Finish(s, b))
  {
    var t := Finish(s, b);
    forall x <- t.path, i: int | 0 < i < |t.path[x]| ensures StepOrdered(prog, t, x, i) {
      assert StepOrdered(prog, s, x, i);
    }
  }

  lemma FinishKeeps(prog: Program, entry: Id, s: Dfs, b: Id, stack: seq<Id>)
    requires Invariant(prog, entry, s, stack + [b], b)
    requires b !in stack && b in s.path && BlockSettled(prog, s, b)
    ensures Invariant(prog, entry, Finish(s, b), stack, b)
    ensures b in s.order && s.order[b] == 0
  {
    FinishPaths(prog, entry, s, b, stack);
    FinishNumbering(s, b, stack);
    FinishEdges(prog, s, b, stack + [b]);
    FinishSettled(prog, s, b);
    FinishOrdered(prog, s, b);
  }

  // ---- what the finished traversal promises

  // The order lists exactly the blocks reachable through terminator and merge targets, under
  // their numbers, the entry last.
  ghost predicate NumbersReachable(prog: Program, entry: Id, s: Dfs) {
    && (forall b :: b in s.order <==> Reachable(prog, entry, b))
    && (forall b <- s.order :: 0 < s.order[b] <= |s.post| && s.post[s.order[b] - 1] == b)
    && (forall i :: 0 <= i < |s.post| ==> s.post[i] in s.order && s.order[s.post[i]] == i + 1)
    && entry in s.order && s.order[entry] == |s.post|
  }

  // t was being visited when u was discovered.
  ghost predicate IsAncestor(s: Dfs, t: Id, u: Id) {
    u in s.path && t in s.path[u]
  }

  // An edge to a forced target is recorded exactly when it goes down, and when it does not its
  // target is u or an ancestor of u in the traversal.
  ghost predicate ForcedEdge(s: Dfs, u: Id, t: Id)
    requires u in s.order
  {
    && t in s.order
    && (t in Edges(s.succs, u) <==> s.order[t] < s.order[u])
    && (IsAncestor(s, t, u) <==> s.order[u] <= s.order[t])
  }

  // The block x was finished before u, or is an ancestor of it.
  ghost predicate Before(s: Dfs, x: Id, u: Id)
    requires u in s.order
  {
    x in s.order && (IsAncestor(s, x, u) || s.order[x] < s.order[u])
  }

  // The edge from u to m comes after those of blocks before u and ahead of those of blocks numbered
  // above u.
  ghost predicate ComesAt(s: Dfs, u: Id, m: Id, i: int)
    requires u in s.order && 0 <= i < |Edges(s.preds, m)|
  {
    var pred := Edges(s.preds, m);
    && pred[i] == u
    && (forall j :: 0 <= j < i ==> Before(s, pred[j], u))
    && (forall j :: i < j < |pred| ==> pred[j] in s.order && s.order[pred[j]] > s.order[u])
  }

  // When the merge block m of a selection at u that is no ancestor of u has an edge from u, and where
  // it comes if u does not jump there.
  ghost predicate MergeEdge(prog: Program, s: Dfs, u: Id, m: Id)
    requires u in s.order && u in prog
  {
    var pred := Edges(s.preds, m);
    && m in s.order
    && (!IsAncestor(s, m, u) ==>
          && (LoneCase(prog, s.succs, u, m) ==> u in pred)
          && (u in pred && m !in JumpTargets(prog[u]) ==>
                exists i :: 0 <= i < |pred| && ComesAt(s, u, m, i) && (i < 2 || LoneCase(prog, s.succs, u, m)))
          && (u !in pred ==> |pred| >= 2 && Before(s, pred[0], u) && Before(s, pred[1], u)))
  }

  ghost predicate EdgesComplete(prog: Program, s: Dfs) {
    && (forall u, v :: u in Edges(s.preds, v) <==> v in Edges(s.succs, u))
    && (forall u, v :: u in Edges(s.preds, v) ==> GoesDown(prog, s, u, v))
    && (forall v :: NoDuplicates(Edges(s.preds, v)))
    && (forall u <- s.order :: u in prog &&
          (forall t <- ForcedTargets(prog[u]) :: ForcedEdge(s, u, t)) &&
          (prog[u].merge.MergeSelection? ==> MergeEdge(prog, s, u, prog[u].next)))
  }

  ghost predicate Traversed(prog: Program, entry: Id, s: Dfs) {
    && NumbersReachable(prog, entry, s) && Numbered(s.preds, entry, s.order) && EdgesComplete(prog, s)
    && TargetsInOrder(prog, s) && TreePaths(prog, entry, s)
  }

  // The paths form a tree: each goes by visit steps from the entry to its block, through the paths of
  // the blocks on it.
  ghost predicate TreePaths(prog: Program, entry: Id, s: Dfs) {
    && s.path.Keys == s.order.Keys
    && (forall b <- s.path :: Chain(prog, entry, s.path[b], b))
    && (forall b <- s.path, i: int | 0 <= i < |s.path[b]| :: ThroughPath(s, b, i))
  }

  // A block b entered from u was numbered above all earlier targets of u, except those that were being
  // visited, and so were the blocks entered from it.
  ghost predicate TargetsInOrder(prog: Program, s: Dfs) {
    forall x <- s.path, i: int | 0 < i < |s.path[x]| :: NumberedInOrder(prog, s, x, i)
  }

  ghost predicate NumberedInOrder(prog: Program, s: Dfs, x: Id, i: int)
    requires x in s.path && 0 < i < |s.path[x]|
  {
    var p := s.path[x];
    p[i - 1] in prog && x in s.order
    && forall t <- Preceding(VisitedTargets(prog[p[i - 1]]), p[i]) ::
         t in p[..i] || (t in s.order && s.order[t] < s.order[x])
  }

  ghost predicate Done(prog: Program, entry: Id, s: Dfs) {
    && WellFormed(prog)
    && Invariant(prog, entry, s, [], entry)
    && entry in s.order && s.order[entry] == |s.post|
  }

  lemma DoneNumbersReachable(prog: Program, entry: Id, s: Dfs)
    requires Done(prog, entry, s)
    ensures NumbersReachable(prog, entry, s)
  {
    forall b ensures b in s.order <==> Reachable(prog, entry, b) {
      if b in s.order {
        assert Chain(prog, entry, s.path[b], b);
      }
      if Reachable(prog, entry, b) {
        var p: seq<Id> :| Chain(prog, entry, p, b);
        forall u <- s.order.Keys, t <- VisitedTargets(prog[u]) ensures t in s.order.Keys {
          assert BlockSettled(prog, s, u);
          if t in ForcedTargets(prog[u]) {
            assert TargetSettled(s, u, t);
          }
        }
        ClosedHoldsChain(prog, entry, p, b, s.order.Keys);
      }
    }
  }

  lemma EdgesAreDown(prog: Program, s: Dfs)
    requires EdgesDown(prog, s) && forall b <- s.order :: s.order[b] != 0
    ensures Descending(s.preds, s.order)
  {
    forall b <- s.preds, p <- s.preds[b]
      ensures p in s.order && b in s.order && s.order[p] > s.order[b]
    {
      assert p in Edges(s.preds, b);
      assert GoesDown(prog, s, p, b);
    }
  }

  lemma NumbersDiffer(s: Dfs)
    requires Numbering(s, [])
    ensures forall b <- s.order :: 0 < s.order[b] <= |s.post|
    ensures forall b <- s.order, c <- s.order :: s.order[b] == s.order[c] ==> b == c
  {
    forall b <- s.order ensures 0 < s.order[b] <= |s.post| {
      NumberOf(s, b);
    }
    forall b <- s.order, c <- s.order | s.order[b] == s.order[c] ensures b == c {
      NumberOf(s, b);
      NumberOf(s, c);
    }
  }

  lemma NumberOf(s: Dfs, b: Id)
    requires Numbering(s, []) && b in s.order
    ensures 0 < s.order[b] <= |s.post| && s.post[s.order[b] - 1] == b
  {
    assert b !in [];
  }

  lemma EntersAll(s: Dfs, entry: Id)
    requires Entered(s, entry, entry) && forall b <- s.order :: s.order[b] > 0
    ensures forall b <- s.order :: b != entry ==> Edges(s.preds, b) != []
  {
  }

  lemma DoneNumbered(prog: Program, entry: Id, s: Dfs)
    requires Done(prog, entry, s)
    ensures Numbered(s.preds, entry, s.order)
  {
    hide EdgesDown, Settled, Chain, Outlasts, Numbering, Entered, WellFormed, Paths, Descending;
    NumbersDiffer(s);
    EdgesAreDown(prog, s);
    EntersAll(s, entry);
    NumberedFrom(s, entry);
  }

  lemma NumberedFrom(s: Dfs, entry: Id)
    requires entry in s.order && forall b <- s.order :: 0 < s.order[b] <= s.order[entry]
    requires forall b <- s.order, c <- s.order :: s.order[b] == s.order[c] ==> b == c
    requires Descending(s.preds, s.order) && forall b <- s.order :: b != entry ==> Edges(s.preds, b) != []
    ensures Numbered(s.preds, entry, s.order)
  {
    hide Descending;
  }

  lemma DoneMerge(prog: Program, s: Dfs, u: Id, m: Id)
    requires u in s.path && u in s.order && u in prog && MergeSettled(prog, s, u, m)
    requires forall x <- s.order :: s.order[x] != 0
    ensures MergeEdge(prog, s, u, m)
  {
    hide LoneCase, PlacedAt;
    var pred := Edges(s.preds, m);
    var n := if LoneCase(prog, s.succs, u, m) then |pred| else 2;
    if Placed(s, u, m, n) {
      var i :| 0 <= i < n && i < |pred| && PlacedAt(s, u, m, i);
      DonePlaced(s, u, m, i);
    }
  }

  lemma DonePlaced(s: Dfs, u: Id, m: Id, i: nat)
    requires u in s.path && u in s.order && i < |Edges(s.preds, m)| && PlacedAt(s, u, m, i)
    requires forall x <- s.order :: s.order[x] != 0
    ensures ComesAt(s, u, m, i)
  {
    var pred := Edges(s.preds, m);
    forall j | 0 <= j < |pred| && j != i
      ensures if j < i then Before(s, pred[j], u) else pred[j] in s.order && s.order[pred[j]] > s.order[u]
    {
      assert if j < i then Earlier(s, pred[j], u) else Later(s, pred[j], u);
    }
  }

  lemma DoneForced(prog: Program, s: Dfs, u: Id, t: Id)
    requires EdgesDown(prog, s) && u in s.path && u in s.order && TargetSettled(s, u, t)
    requires forall x <- s.order :: s.order[x] != 0
    requires forall x <- s.path[u] :: Outlasts(s, x, u)
    ensures ForcedEdge(s, u, t)
  {
    if t in s.path[u] {
      assert Outlasts(s, t, u);
    }
    if u in Edges(s.preds, t) {
      assert GoesDown(prog, s, u, t);
    }
  }

  lemma DoneBlock(prog: Program, s: Dfs, u: Id)
    requires EdgesDown(prog, s) && u in s.path && u in s.order && u in prog && BlockSettled(prog, s, u)
    requires forall x <- s.order :: s.order[x] != 0
    requires forall x <- s.path[u] :: Outlasts(s, x, u)
    ensures forall t <- ForcedTargets(prog[u]) :: ForcedEdge(s, u, t)
    ensures prog[u].merge.MergeSelection? ==> MergeEdge(prog, s, u, prog[u].next)
  {
    hide EdgesDown, TargetSettled, MergeSettled, MergeEdge, ForcedEdge, Outlasts, ForcedTargets;
    forall t <- ForcedTargets(prog[u]) ensures ForcedEdge(s, u, t) {
      DoneForced(prog, s, u, t);
    }
    if prog[u].merge.MergeSelection? {
      DoneMerge(prog, s, u, prog[u].next);
    }
  }

  lemma EdgesOnce(prog: Program, s: Dfs)
    requires EdgesDown(prog, s)
    ensures forall u, v :: u in Edges(s.preds, v) <==> v in Edges(s.succs, u)
    ensures forall u, v :: u in Edges(s.preds, v) ==> GoesDown(prog, s, u, v)
    ensures forall v :: NoDuplicates(Edges(s.preds, v))
  {
    hide GoesDown;
  }

  lemma DoneEdgesComplete(prog: Program, entry: Id, s: Dfs)
    requires Done(prog, entry, s)
    ensures EdgesComplete(prog, s)
  {
    NumbersDiffer(s);
    EdgesOnce(prog, s);
    hide Chain, Numbering, EdgesDown, Entered, WellFormed, BlockSettled, MergeEdge, ForcedEdge, Outlasts, GoesDown;
    forall u <- s.order
      ensures u in prog
      ensures forall t <- ForcedTargets(prog[u]) :: ForcedEdge(s, u, t)
      ensures prog[u].merge.MergeSelection? ==> MergeEdge(prog, s, u, prog[u].next)
    {
      DoneBlock(prog, s, u);
    }
  }

  lemma DoneOrdered(prog: Program, entry: Id, s: Dfs)
    requires Done(prog, entry, s)
    ensures TargetsInOrder(prog, s)
  {
    hide EdgesDown, Settled, Chain, Outlasts, Entered;
    NumbersDiffer(s);
    forall x <- s.path, i: int | 0 < i < |s.path[x]| ensures NumberedInOrder(prog, s, x, i) {
      assert StepOrdered(prog, s, x, i);
    }
  }

  lemma DoneTraversed(prog: Program, entry: Id, s: Dfs)
    requires Done(prog, entry, s)
    ensures Traversed(prog, entry, s)
  {
    assert TreePaths(prog, entry, s) by {
      hide EdgesDown, Settled, Outlasts, Entered, Chain, ThroughPath;
    }
    hide Done, NumbersReachable, Numbered, EdgesComplete, TargetsInOrder, TreePaths;
    DoneOrdered(prog, entry, s);
    DoneNumbersReachable(prog, entry, s);
    DoneNumbered(prog, entry, s);
    DoneEdgesComplete(prog, entry, s);
  }

  // An ancestor that is not the block itself has a larger number, and what the traversal
  // dropped leads to one.
  lemma DroppedEdges(prog: Program, entry: Id, s: Dfs, u: Id, t: Id)
    requires Traversed(prog, entry, s)
    requires u in s.order && t in ForcedTargets(prog[u])
    ensures t in s.order
    ensures t !in Edges(s.succs, u) <==> IsAncestor(s, t, u)
    ensures s.order[t] > s.order[u] <==> IsAncestor(s, t, u) && t != u
  {
    hide NumbersReachable;
    assert ForcedEdge(s, u, t);
  }
}
