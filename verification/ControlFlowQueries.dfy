// What the queries on a control-flow graph say about the ways through the function.
module ControlFlowQueries {
  import opened Blocks
  import opened Dominance
  import opened DepthFirst
  import opened ControlFlowGraph

  // ---- ways from a block to the end of the function

  // The step of p to position i follows a terminator.
  ghost predicate Jumps(prog: Program, p: seq<Id>, i: int)
    requires 0 < i < |p| && p[i - 1] in prog
  {
    p[i] in JumpTargets(prog[p[i - 1]])
  }

  // p goes from `from` along terminator targets to a block that has none.
  ghost predicate WayOut(prog: Program, p: seq<Id>, from: Id) {
    && |p| > 0 && p[0] == from
    && (forall i :: 0 <= i < |p| ==> p[i] in prog)
    && (forall i :: 0 < i < |p| ==> Jumps(prog, p, i))
    && JumpTargets(prog[p[|p| - 1]]) == []
  }

  lemma WayOutFrom(prog: Program, p: seq<Id>, from: Id, i: nat)
    requires WayOut(prog, p, from) && i < |p|
    ensures WayOut(prog, p[i..], p[i])
  {
    var q := p[i..];
    forall j | 0 < j < |q| ensures Jumps(prog, q, j) {
      assert Jumps(prog, p, i + j);
    }
  }

  // The block at which control comes together again after the construct of h.
  function MergeOf(prog: Program, h: Id): Id
    requires h in prog
  {
    match prog[h].merge
    case MergeLoop => prog[h].mergeBlock
    case MergeSelection => prog[h].next
    case MergeNone => 0
  }

  // Every way out from a header goes through its merge block.
  ghost predicate MergesOnEveryWay(prog: Program, h: Id)
    requires h in prog
  {
    !prog[h].merge.MergeNone? ==> forall p: seq<Id> :: WayOut(prog, p, h) ==> MergeOf(prog, h) in p
  }

  // A run of blocks without constructs that each jump to the next.
  ghost predicate StraightRun(prog: Program, p: seq<Id>, from: Id, to: Id) {
    && |p| > 0 && p[0] == from && p[|p| - 1] == to
    && forall i :: 0 < i < |p| ==> JumpsOn(prog, p, i)
  }

  predicate OnlyJumps(prog: Program, b: Id) { b in prog && prog[b].terminator.Direct? && prog[b].merge.MergeNone? }

  ghost predicate JumpsOn(prog: Program, p: seq<Id>, i: int)
    requires 0 < i < |p|
  {
    OnlyJumps(prog, p[i - 1]) && p[i] == prog[p[i - 1]].next
  }

  // Control cannot leave a straight run.
  lemma {:induction false} WayOutFollowsRun(prog: Program, p: seq<Id>, from: Id, r: seq<Id>, to: Id)
    requires WayOut(prog, p, from) && StraightRun(prog, r, from, to)
    ensures r <= p
    decreases |r|
  {
    if |r| > 1 {
      assert JumpsOn(prog, r, 1);
      assert |p| > 1 && Jumps(prog, p, 1);
      WayOutFrom(prog, p, from, 1);
      var q := r[1..];
      forall i | 0 < i < |q| ensures JumpsOn(prog, q, i) {
        assert JumpsOn(prog, r, i + 1);
      }
      WayOutFollowsRun(prog, p[1..], p[1], q, to);
      assert p == [p[0]] + p[1..] && r == [r[0]] + q;
    } else {
      assert r == [from] && p[0] == from;
    }
  }

  // The loop in which the compiler follows single jumps, for runs that end: within k steps the target
  // is met, or a block that does not just jump on.
  ghost predicate Ends(prog: Program, from: Id, to: Id, k: nat)
    decreases k
  {
    || from == to || !OnlyJumps(prog, from)
    || (k > 0 && Ends(prog, prog[from].next, to, k - 1))
  }

  method ExecutionIsBranchless(prog: Program, from: Id, to: Id, ghost k: nat) returns (r: bool)
    requires WellFormed(prog) && from in prog && Ends(prog, from, to, k)
    ensures r <==> exists p: seq<Id> :: StraightRun(prog, p, from, to)
  {
    var start := from;
    ghost var run, left: nat := [from], k;
    while true
      invariant start in prog && Ends(prog, start, to, left) && StraightRun(prog, run, from, start)
      invariant forall i :: 0 <= i < |run| - 1 ==> run[i] != to
      decreases left
    {
      if start == to {
        return true;
      }
      if prog[start].terminator.Direct? && prog[start].merge.MergeNone? {
        assert prog[start].next in JumpTargets(prog[start]);
        assert prog[start].next in VisitedTargets(prog[start]);
        ghost var longer := run + [prog[start].next];
        forall i | 0 < i < |longer| ensures JumpsOn(prog, longer, i) {
          assert i < |run| ==> JumpsOn(prog, run, i);
        }
        start := prog[start].next;
        run := longer;
        left := left - 1;
      } else {
        forall p: seq<Id> ensures !StraightRun(prog, p, from, to) {
          if StraightRun(prog, p, from, to) {
            OnlyOneRun(prog, p, run, from, to, start);
          }
        }
        return false;
      }
    }
  }

  // A run cannot get past a block that does not just jump on.
  lemma {:induction false} OnlyOneRun(prog: Program, p: seq<Id>, q: seq<Id>, from: Id, to: Id, stop: Id)
    requires StraightRun(prog, p, from, to) && StraightRun(prog, q, from, stop)
    requires !OnlyJumps(prog, stop)
    ensures to in q
    decreases |p|
  {
    SameSteps(prog, p, q, from, to, stop, |p| - 1);
    assert q[|p| - 1] == to;
  }

  lemma {:induction false} SameSteps(prog: Program, p: seq<Id>, q: seq<Id>, from: Id, to: Id, stop: Id, n: nat)
    requires StraightRun(prog, p, from, to) && StraightRun(prog, q, from, stop) && n < |p|
    requires !OnlyJumps(prog, stop)
    ensures n < |q| && q[n] == p[n]
  {
    if n > 0 {
      SameSteps(prog, p, q, from, to, stop, n - 1);
      assert JumpsOn(prog, p, n);
      assert n < |q| ==> JumpsOn(prog, q, n);
    }
  }

  // ---- the sub-graph query

  // t comes right after d: as the merge block of its construct, or as the only place it jumps to.
  predicate ContinuesAt(prog: Program, d: Id, t: Id)
    requires d in prog
  {
    (!prog[d].merge.MergeNone? && MergeOf(prog, d) == t) || (prog[d].terminator.Direct? && prog[d].next == t)
  }

  // d is a two-way branch of the loop header `from`, or one after which nothing runs, and x leads
  // straight to the merge block of the loop.
  ghost predicate LeavesLoop(prog: Program, branchless: (Id, Id) -> bool, from: Id, d: Id, x: Id)
    requires from in prog
  {
    && d in prog
    && prog[from].merge.MergeLoop? && prog[d].terminator.Select? && x in JumpTargets(prog[d])
    && (d == from || prog[d].merge.MergeNone?
        || (MergeOf(prog, d) in prog && prog[MergeOf(prog, d)].terminator.Unreachable?))
    && branchless(x, prog[from].mergeBlock)
  }

  // A way out that takes such a branch.
  ghost predicate TakesExit(prog: Program, branchless: (Id, Id) -> bool, from: Id, p: seq<Id>)
    requires from in prog
  {
    exists i :: 0 < i < |p| && ExitAt(prog, branchless, from, p, i)
  }

  ghost predicate ExitAt(prog: Program, branchless: (Id, Id) -> bool, from: Id, p: seq<Id>, i: int)
    requires from in prog && 0 < i < |p|
  {
    LeavesLoop(prog, branchless, from, p[i - 1], p[i])
  }

  lemma StepIsPassed(prog: Program, branchless: (Id, Id) -> bool, from: Id, d: Id, t: Id, p: seq<Id>)
    requires from in prog && d in prog && WellFormedBlock(prog, d) && WellFormedBlock(prog, from)
    requires AllowsTraversal(prog, branchless, from, d, t) && MergesOnEveryWay(prog, d) && WayOut(prog, p, d)
    ensures t in p || TakesExit(prog, branchless, from, p)
  {
    if !(!prog[d].merge.MergeNone? && MergeOf(prog, d) == t) {
      assert |p| > 1 && Jumps(prog, p, 1);
      if p[1] != t {
        assert ExitAt(prog, branchless, from, p, 1);
      }
    }
  }

  // A positive answer means that every way out from `from` goes through `to`, except those that take
  // an exit the query ignores, when the constructs around `to` merge on every way.
  lemma {:induction false} TerminatesIsPassed(cfg: Cfg, branchless: (Id, Id) -> bool, from: Id, to: Id, p: seq<Id>)
    requires cfg.Built() && from in cfg.prog
    requires Terminates(cfg.prog, branchless, cfg.precedingEdges, cfg.entry, cfg.visitOrder,
                        cfg.immediateDominators, from, to)
    requires forall h <- cfg.prog :: Dominates(cfg.precedingEdges, cfg.entry, h, to) ==> MergesOnEveryWay(cfg.prog, h)
    requires WayOut(cfg.prog, p, from)
    ensures to in p || TakesExit(cfg.prog, branchless, from, p)
    decreases if to in cfg.visitOrder then cfg.visitOrder[cfg.entry] - cfg.visitOrder[to] else 0
  {
    hide AllowsTraversal, MergesOnEveryWay, Traversed, LeavesLoop, WayOut, Dominates, WellFormed;
    var prog, preds, entry, order, idom :=
      cfg.prog, cfg.precedingEdges, cfg.entry, cfg.visitOrder, cfg.immediateDominators;
    StartsAt(prog, p, from);
    if to != from {
      var d := idom[to];
      NumbersInRange(prog, entry, cfg.State());
      SelfDominates(preds, entry, d);
      DominatorsBelow(preds, entry, order, idom, to);
      TerminatesIsPassed(cfg, branchless, from, d, p);
      if d in p && !TakesExit(prog, branchless, from, p) {
        var i :| 0 <= i < |p| && p[i] == d;
        WayOutFrom(prog, p, from, i);
        BlockIsWellFormed(prog, from);
        StepIsPassed(prog, branchless, from, d, to, p[i..]);
        if TakesExit(prog, branchless, from, p[i..]) {
          var j :| 0 < j < |p[i..]| && ExitAt(prog, branchless, from, p[i..], j);
          assert ExitAt(prog, branchless, from, p, i + j);
        }
      }
    }
  }

  lemma StartsAt(prog: Program, p: seq<Id>, from: Id)
    requires WayOut(prog, p, from)
    ensures from in p
  {
  }

  lemma BlockIsWellFormed(prog: Program, b: Id)
    requires WellFormed(prog) && b in prog
    ensures WellFormedBlock(prog, b)
  {
  }

  lemma DominatorsBelow(preds: EdgeMap, entry: Id, order: map<Id, nat>, idom: map<Id, Id>, b: Id)
    requires ExactAbove(preds, entry, order, idom, 0) && b in order && order[b] > 0
    ensures Exact(preds, entry, order, idom, b)
    ensures b in idom && forall a :: Dominates(preds, entry, a, idom[b]) ==> b == entry || Dominates(preds, entry, a, b)
  {
  }

  // Such a way out goes straight to the merge block of the loop from there.
  lemma ExitGoesStraight(prog: Program, branchless: (Id, Id) -> bool, from: Id, p: seq<Id>) returns (i: nat, r: seq<Id>)
    requires from in prog && WayOut(prog, p, from) && TakesExit(prog, branchless, from, p)
    requires forall x: Id, y: Id :: branchless(x, y) ==> exists r: seq<Id> :: StraightRun(prog, r, x, y)
    ensures 0 < i < |p| && LeavesLoop(prog, branchless, from, p[i - 1], p[i])
    ensures StraightRun(prog, r, p[i], prog[from].mergeBlock) && r <= p[i..]
  {
    i :| 0 < i < |p| && ExitAt(prog, branchless, from, p, i);
    r :| StraightRun(prog, r, p[i], prog[from].mergeBlock);
    WayOutFrom(prog, p, from, i);
    WayOutFollowsRun(prog, p[i..], p[i], r, prog[from].mergeBlock);
  }

  // For a header that is no loop header there is no exit to take.
  lemma TerminatesPostDominates(cfg: Cfg, branchless: (Id, Id) -> bool, from: Id, to: Id, p: seq<Id>)
    requires cfg.Built() && from in cfg.prog && !cfg.prog[from].merge.MergeLoop?
    requires Terminates(cfg.prog, branchless, cfg.precedingEdges, cfg.entry, cfg.visitOrder,
                        cfg.immediateDominators, from, to)
    requires forall h <- cfg.prog :: Dominates(cfg.precedingEdges, cfg.entry, h, to) ==> MergesOnEveryWay(cfg.prog, h)
    requires WayOut(cfg.prog, p, from)
    ensures to in p
  {
    TerminatesIsPassed(cfg, branchless, from, to, p);
  }

  // From `from` down to `to`, each block continues its immediate dominator.
  ghost predicate ContinuesDown(cfg: Cfg, branchless: (Id, Id) -> bool, from: Id, to: Id)
    requires from in cfg.prog
    reads cfg
  {
    forall t <- cfg.visitOrder |
      StrictlyDominates(cfg.precedingEdges, cfg.entry, from, t) && Dominates(cfg.precedingEdges, cfg.entry, t, to) ::
      StepAllowed(cfg, branchless, from, t)
  }

  ghost predicate StepAllowed(cfg: Cfg, branchless: (Id, Id) -> bool, from: Id, t: Id)
    requires from in cfg.prog
    reads cfg
  {
    && t in cfg.immediateDominators && WellFormedBlock(cfg.prog, cfg.immediateDominators[t])
    && AllowsTraversal(cfg.prog, branchless, from, cfg.immediateDominators[t], t)
  }

  // The answer on reachable blocks, without the climb: `from` dominates `to`, and every block on the
  // way down between them continues its immediate dominator.
  lemma {:induction false} TerminatesExactly(cfg: Cfg, branchless: (Id, Id) -> bool, from: Id, to: Id)
    requires cfg.Built() && from in cfg.visitOrder && to in cfg.visitOrder && from in cfg.prog
    ensures Terminates(cfg.prog, branchless, cfg.precedingEdges, cfg.entry, cfg.visitOrder,
                       cfg.immediateDominators, from, to) <==>
            Dominates(cfg.precedingEdges, cfg.entry, from, to) && ContinuesDown(cfg, branchless, from, to)
    decreases cfg.visitOrder[cfg.entry] - cfg.visitOrder[to]
  {
    hide AllowsTraversal, Traversed, Dominates, WellFormed, WellFormedBlock, Exact;
    var prog, preds, entry, order, idom :=
      cfg.prog, cfg.precedingEdges, cfg.entry, cfg.visitOrder, cfg.immediateDominators;
    TraversedIsNumbered(prog, entry, cfg.State());
    SelfDominates(preds, entry, from);
    SelfDominates(preds, entry, to);
    if to == from {
      forall t <- order ensures !(StrictlyDominates(preds, entry, from, t) && Dominates(preds, entry, t, to)) {
        if StrictlyDominates(preds, entry, from, t) && Dominates(preds, entry, t, to) {
          DominatesAntisymmetric(preds, entry, order, from, t);
        }
      }
    } else if to == entry {
      DominatesEntry(preds, entry, from);
      EntryHasNone(prog, entry, cfg.State());
    } else {
      OneStepUp(cfg, to);
      var d := idom[to];
      TerminatesExactly(cfg, branchless, from, d);
      if Dominates(preds, entry, from, to) {
        ContinuesOneMore(cfg, branchless, from, d, to);
      }
    }
  }

  lemma ContinuesOneMore(cfg: Cfg, branchless: (Id, Id) -> bool, from: Id, d: Id, to: Id)
    requires from in cfg.prog && to in cfg.visitOrder && from != to
    requires Dominates(cfg.precedingEdges, cfg.entry, from, to)
    requires forall a :: Dominates(cfg.precedingEdges, cfg.entry, a, to) <==>
                         a == to || Dominates(cfg.precedingEdges, cfg.entry, a, d)
    ensures ContinuesDown(cfg, branchless, from, to) <==>
            ContinuesDown(cfg, branchless, from, d) && StepAllowed(cfg, branchless, from, to)
  {
    hide Dominates, StepAllowed;
  }

  lemma EntryHasNone(prog: Program, entry: Id, s: Dfs)
    requires WellFormed(prog) && Traversed(prog, entry, s)
    ensures Edges(s.preds, entry) == []
  {
    NumbersInRange(prog, entry, s);
    hide NumbersReachable, EdgesComplete;
    if Edges(s.preds, entry) != [] {
      PredecessorIsHigher(s.preds, entry, s.order, Edges(s.preds, entry)[0], entry);
    }
  }

  // The dominators of a block that is not the entry are itself and those of its immediate dominator.
  lemma OneStepUp(cfg: Cfg, b: Id)
    requires cfg.Built() && b in cfg.visitOrder && b != cfg.entry
    ensures Edges(cfg.precedingEdges, b) != [] && b in cfg.immediateDominators
    ensures var d := cfg.immediateDominators[b];
            && d in cfg.visitOrder && cfg.visitOrder[b] < cfg.visitOrder[d] <= cfg.visitOrder[cfg.entry]
            && WellFormedBlock(cfg.prog, d)
            && forall a :: Dominates(cfg.precedingEdges, cfg.entry, a, b) <==>
                           a == b || Dominates(cfg.precedingEdges, cfg.entry, a, d)
  {
    hide NumbersReachable, EdgesComplete, WellFormedBlock, Dominates;
    assert Edges(cfg.precedingEdges, b) != [];
    StepUp(cfg.prog, cfg.entry, cfg.State(), cfg.immediateDominators, b);
    NumbersInRange(cfg.prog, cfg.entry, cfg.State());
    assert Exact(cfg.precedingEdges, cfg.entry, cfg.visitOrder, cfg.immediateDominators, b);
  }

  // Below a block that is no loop header, only merge blocks and single jumps continue.
  lemma AllowedWithoutLoop(cfg: Cfg, branchless: (Id, Id) -> bool, from: Id, t: Id)
    requires cfg.Built() && from in cfg.prog && !cfg.prog[from].merge.MergeLoop?
    requires t in cfg.visitOrder && t != cfg.entry
    ensures StepAllowed(cfg, branchless, from, t) <==>
            ContinuesAt(cfg.prog, cfg.immediateDominators[t], t)
  {
    hide Traversed, ExactAbove, Dominates, WellFormed;
    OneStepUp(cfg, t);
  }

  // ---- the innermost loop

  // Blocks inside a loop, which its header dominates and its merge block does not lead to, find a loop
  // header, and one below that of the loop.
  lemma {:induction false} LoopDominatorFound(cfg: Cfg, h: Id, b: Id)
    requires cfg.Built() && b in cfg.visitOrder
    requires h in cfg.prog && cfg.prog[h].merge.MergeLoop?
    requires StrictlyDominates(cfg.precedingEdges, cfg.entry, h, b)
    requires forall p: seq<Id> :: !Walk(cfg.precedingEdges, cfg.prog[h].mergeBlock, p, b)
    requires Numbered(cfg.precedingEdges, cfg.entry, cfg.visitOrder)
    ensures var r := LoopHeaderAbove(cfg.prog, cfg.precedingEdges, cfg.entry, cfg.visitOrder, b);
            r != NO_DOMINATOR && Dominates(cfg.precedingEdges, cfg.entry, h, r)
    decreases cfg.visitOrder[cfg.entry] - cfg.visitOrder[b]
  {
    hide Traversed, Dominates, ExactAbove, MergesAt, HeaderAmong;
    var prog, preds, entry, order := cfg.prog, cfg.precedingEdges, cfg.entry, cfg.visitOrder;
    DominatesEntry(preds, entry, h);
    SelfDominates(preds, entry, h);
    VisitedInRange(prog, entry, cfg.State(), b);
    DominatesThroughPredecessors(preds, entry, h, b);
    var c := HeaderAmong(prog, Edges(preds, b), b);
    KnownPredecessor(prog, entry, cfg.State(), c, b);
    if c == h {
      MergesAtItself(preds, prog[h].mergeBlock, b);
    } else if !(prog[c].merge.MergeLoop? && prog[c].mergeBlock != b) {
      forall p: seq<Id> ensures !Walk(preds, prog[h].mergeBlock, p, c) {
        if Walk(preds, prog[h].mergeBlock, p, c) {
          var q := p + [b];
          assert q[..|q| - 1] == p;
          assert Walk(preds, prog[h].mergeBlock, q, b);
        }
      }
      LoopDominatorFound(cfg, h, c);
    }
  }

  lemma VisitedInRange(prog: Program, entry: Id, s: Dfs, b: Id)
    requires WellFormed(prog) && Traversed(prog, entry, s) && b in s.order
    ensures b in prog && 0 < b < NO_DOMINATOR
  {
    hide NumbersReachable, Numbered;
  }

  lemma MergesAtItself(preds: EdgeMap, m: Id, b: Id)
    requires forall p: seq<Id> :: !Walk(preds, m, p, b)
    ensures m != b
  {
    assert !Walk(preds, m, [b], b);
  }

  // A block at which the construct of one of its predecessors ends is in the loops its header is in:
  // a loop does not count its own merge block.
  lemma MergeBlockFollowsHeader(cfg: Cfg, h: Id, b: Id)
    requires cfg.Built() && Numbered(cfg.precedingEdges, cfg.entry, cfg.visitOrder)
    requires h in Edges(cfg.precedingEdges, b) && h in cfg.prog && !cfg.prog[h].merge.MergeNone?
    requires MergeOf(cfg.prog, h) == b
    requires forall u <- Edges(cfg.precedingEdges, b) ::
               u in cfg.prog && (u == h || cfg.prog[u].merge.MergeNone? || MergeOf(cfg.prog, u) != b)
    ensures LoopHeaderAbove(cfg.prog, cfg.precedingEdges, cfg.entry, cfg.visitOrder, b) ==
            LoopHeaderAbove(cfg.prog, cfg.precedingEdges, cfg.entry, cfg.visitOrder, h)
  {
    hide Traversed, ExactAbove, Dominates, Numbered, MergesAt, WellFormed;
    KnownPredecessor(cfg.prog, cfg.entry, cfg.State(), h, b);
    VisitedInRange(cfg.prog, cfg.entry, cfg.State(), b);
    MergesThere(cfg.prog, Edges(cfg.precedingEdges, b), h, b);
  }

  lemma MergesThere(prog: Program, preds: seq<Id>, h: Id, b: Id)
    requires h in preds && h in prog && !prog[h].merge.MergeNone? && MergeOf(prog, h) == b
    requires forall u <- preds :: u in prog && (u == h || prog[u].merge.MergeNone? || MergeOf(prog, u) != b)
    ensures HeaderAmong(prog, preds, b) == h && (prog[h].merge.MergeLoop? ==> prog[h].mergeBlock == b)
  {
    assert MergesAt(prog, h, b);
    assert MergesAt(prog, HeaderAmong(prog, preds, b), b);
  }

  // ---- numbers

  // Blocks inside a loop are numbered above its merge block, and so above everything entered from
  // there: x is entered through the loop header h but not through the merge block.
  lemma InsideAboveMerge(cfg: Cfg, h: Id, x: Id)
    requires cfg.Built() && x in cfg.path && h in cfg.path[x] && x != h
    requires h in cfg.prog && cfg.prog[h].merge.MergeLoop? && cfg.prog[h].mergeBlock !in cfg.path[x]
    ensures cfg.prog[h].mergeBlock in cfg.visitOrder && x in cfg.visitOrder
    ensures cfg.visitOrder[cfg.prog[h].mergeBlock] < cfg.visitOrder[x]
  {
    hide NumbersReachable, Numbered, EdgesComplete, ExactAbove, WellFormed, TargetsInOrder, ThroughPath;
    assert Chain(cfg.prog, cfg.entry, cfg.path[x], x);
    BelowLoopHeader(cfg.prog, cfg.State(), h, x);
  }

  lemma BelowLoopHeader(prog: Program, s: Dfs, h: Id, x: Id)
    requires TargetsInOrder(prog, s) && x in s.path && h in s.path[x] && x != h
    requires h in prog && prog[h].merge.MergeLoop? && prog[h].mergeBlock !in s.path[x]
    requires s.path[x] != [] && s.path[x][|s.path[x]| - 1] == x
    ensures prog[h].mergeBlock in s.order && x in s.order && s.order[prog[h].mergeBlock] < s.order[x]
  {
    hide VisitedTargets, Preceding;
    var p, m := s.path[x], prog[h].mergeBlock;
    var i: int :| 0 <= i < |p| && p[i] == h;
    var y := p[i + 1];
    assert y in p;
    assert NumberedInOrder(prog, s, x, i + 1);
    MergeComesFirst(prog[h], y);
    assert m !in p[..i + 1];
  }

  lemma MergeComesFirst(b: Block, y: Id)
    requires b.merge.MergeLoop? && y != b.mergeBlock
    ensures b.mergeBlock in Preceding(VisitedTargets(b), y)
  {
    assert VisitedTargets(b)[0] == b.mergeBlock;
  }

  // ---- implied edges and dominators

  // A selection's merge block that is no ancestor of its header has an immediate dominator above the
  // header as soon as it has an edge from it: nothing inside the construct dominates it. So it is
  // after a switch with a lone case, and whenever it would have a single predecessor.
  lemma MergeIsHoisted(cfg: Cfg, u: Id)
    requires cfg.Built() && u in cfg.visitOrder && u in cfg.prog && cfg.prog[u].merge.MergeSelection?
    requires var m := cfg.prog[u].next;
             && !IsAncestor(cfg.State(), m, u)
             && (LoneCase(cfg.prog, cfg.succeedingEdges, u, m) || |Edges(cfg.precedingEdges, m)| < 2
                 || m in JumpTargets(cfg.prog[u]))
    ensures var m := cfg.prog[u].next;
            && m in cfg.immediateDominators
            && Dominates(cfg.precedingEdges, cfg.entry, cfg.immediateDominators[m], u)
  {
    var prog, preds, entry, order, m := cfg.prog, cfg.precedingEdges, cfg.entry, cfg.visitOrder, cfg.prog[u].next;
    hide Dominates, Walk, Reachable, IsAncestor, LoneCase;
    MergeHasEdge(prog, entry, cfg.State(), u);
    TraversedIsNumbered(prog, entry, cfg.State());
    PredecessorIsHigher(preds, entry, order, u, m);
    hide Traversed;
    OneStepUp(cfg, m);
    var d := cfg.immediateDominators[m];
    SelfDominates(preds, entry, d);
    DominatesThroughPredecessors(preds, entry, d, m);
  }

  lemma MergeHasEdge(prog: Program, entry: Id, s: Dfs, u: Id)
    requires Traversed(prog, entry, s) && u in s.order && u in prog && prog[u].merge.MergeSelection?
    requires var m := prog[u].next;
             && !IsAncestor(s, m, u)
             && (LoneCase(prog, s.succs, u, m) || |Edges(s.preds, m)| < 2 || m in JumpTargets(prog[u]))
    ensures u in Edges(s.preds, prog[u].next)
  {
    hide NumbersReachable, Numbered, LoneCase, IsAncestor;
    var m := prog[u].next;
    assert MergeEdge(prog, s, u, m);
    if m in JumpTargets(prog[u]) {
      assert m in ForcedTargets(prog[u]);
      assert ForcedEdge(s, u, m);
    }
  }
}
