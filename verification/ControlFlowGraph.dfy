// The control-flow graph of a function: numbering, recorded edges and dominators.
module ControlFlowGraph {
  import opened Blocks
  import opened Dominance
  import opened DepthFirst

  class Cfg {
    const prog: Program
    const entry: Id
    var visitOrder: map<Id, nat>
    var postOrder: seq<Id>
    var visitCount: nat
    var precedingEdges: EdgeMap
    var succeedingEdges: EdgeMap
    var immediateDominators: map<Id, Id>
    // For each discovered block, the blocks then being visited, itself last.
    ghost var path: map<Id, seq<Id>>

    constructor (prog: Program, entry: Id)
      requires WellFormed(prog) && entry in prog
      ensures this.prog == prog && this.entry == entry
      ensures Built()
    {
      this.prog := prog;
      this.entry := entry;
      visitOrder, postOrder, visitCount, path := map[], [], 0, map[];
      precedingEdges, succeedingEdges, immediateDominators := map[], map[], map[];
      new;
      BuildPostOrderVisitOrder();
      BuildImmediateDominators();
    }

    ghost function State(): Dfs
      reads this
    {
      Dfs(visitOrder, postOrder, precedingEdges, succeedingEdges, path)
    }

    ghost predicate Traversing(stack: seq<Id>, newest: Id)
      reads this
    {
      WellFormed(prog) && visitCount == |postOrder| && Invariant(prog, entry, State(), stack, newest)
    }

    // block is on top of the stack of blocks being visited.
    ghost predicate Visiting(block: Id, stack: seq<Id>)
      reads this
    {
      && Traversing(stack, block)
      && stack != [] && stack[|stack| - 1] == block
      && block in prog
      && block in visitOrder && visitOrder[block] == 0
      && block in path && path[block] == stack
    }

    predicate IsBackEdge(to: Id)
      reads this
    {
      to in visitOrder && visitOrder[to] == 0
    }

    predicate HasVisitedForwardEdge(to: Id)
      reads this
    {
      to in visitOrder && visitOrder[to] > 0
    }

    method AddEdge(from: Id, to: Id)
      modifies this`precedingEdges, this`succeedingEdges
      ensures State() == AddBranch(old(State()), from, to)
    {
      precedingEdges := precedingEdges[to := AddUnique(Edges(precedingEdges, to), from)];
      succeedingEdges := succeedingEdges[from := AddUnique(Edges(succeedingEdges, from), to)];
    }

    method PostOrderVisit(block: Id, ghost stack: seq<Id>) returns (entered: bool)
      requires Traversing(stack, block)
      requires MayEnter(prog, entry, block, stack) && Turn(prog, State(), block, stack)
      modifies this
      ensures Traversing(stack, block)
      ensures Extends(old(State()), State())
      ensures immediateDominators == old(immediateDominators)
      ensures entered <==> block !in stack
      ensures block in visitOrder && (entered ==> visitOrder[block] != 0)
      ensures block !in old(visitOrder) ==> visitOrder[block] == visitCount
      decreases prog.Keys - visitOrder.Keys, 0
    {
      hide Invariant, ExtendsFrom, Chain, BlockSettled, WellFormed, Turn;
      StackIsVisiting(prog, entry, State(), stack, block);
      if HasVisitedForwardEdge(block) {
        return true;
      } else if IsBackEdge(block) {
        return false;
      }
      ghost var before := State();
      DiscoverKeeps(prog, entry, before, block, stack);
      UndiscoveredHasNoEdges(prog, entry, before, block, stack, block);
      visitOrder := visitOrder[block := 0];
      path := path[block := stack + [block]];
      ghost var seen := stack + [block];
      assert State() == Discover(before, block, stack);
      ghost var found := State();
      assert block in prog.Keys - before.order.Keys && block !in prog.Keys - visitOrder.Keys;
      VisitTargets(block, seen);
      ghost var last := State();
      VisitEnds(prog, entry, before, found, last, block, stack);
      visitCount := visitCount + 1;
      visitOrder := visitOrder[block := visitCount];
      postOrder := postOrder + [block];
      assert State() == Finish(last, block);
      return true;
    }

    // Enters every target of a block, recording edges.
    method VisitTargets(block: Id, ghost stack: seq<Id>)
      requires Visiting(block, stack) && Edges(succeedingEdges, block) == []
      modifies this
      ensures Visiting(block, stack)
      ensures ExtendsFrom(old(State()), State(), block)
      ensures immediateDominators == old(immediateDominators)
      ensures BlockSettled(prog, State(), block)
      decreases prog.Keys - visitOrder.Keys, 4
    {
      hide Invariant, ExtendsFrom, TargetSettled, MergeSettled, Turn, JumpTargets;
      var b := prog[block];
      ghost var found := State();
      if b.merge.MergeLoop? {
        TurnOf(prog, found, block, stack, [], b.mergeBlock, JumpTargets(b));
        VisitAndRecord(block, b.mergeBlock, stack);
      } else {
        ExtendsFromSelf(found, block);
      }
      ghost var looped := State();
      ExtendsFromKeeps(found, looped, block);
      if b.merge.MergeLoop? {
        SettledIsKnown(looped, block, b.mergeBlock);
      }
      VisitJumpTargets(block, stack);
      ExtendsFromTransitive(found, looped, State(), block);
      ghost var jumped := State();
      ExtendsFromKeeps(found, jumped, block);
      forall t <- ForcedTargets(b) ensures TargetSettled(State(), block, t) {
        if t !in JumpTargets(b) {
          TargetStaysSettled(looped, jumped, block, t);
        }
      }
      if b.merge.MergeSelection? {
        forall t <- ForcedTargets(b) ensures t in visitOrder {
          SettledIsKnown(jumped, block, t);
        }
        VisitSelectionMerge(block, stack);
        ExtendsFromTransitive(found, jumped, State(), block);
        forall t <- ForcedTargets(b) ensures TargetSettled(State(), block, t) {
          TargetStaysSettled(jumped, State(), block, t);
        }
      }
    }

    // The literal cases of a switch, in order.
    method VisitCases(block: Id, cases: seq<Id>, ghost stack: seq<Id>)
      requires Visiting(block, stack) && prog[block].terminator.MultiSelect? && cases == prog[block].cases
      requires forall t <- LoopTargets(prog[block]) :: t in visitOrder
      modifies this
      ensures Visiting(block, stack)
      ensures ExtendsFrom(old(State()), State(), block)
      ensures immediateDominators == old(immediateDominators)
      ensures forall t <- cases :: TargetSettled(State(), block, t)
      ensures old(visitOrder.Keys) <= visitOrder.Keys
      ensures forall v <- Edges(succeedingEdges, block) ::
                v in old(Edges(succeedingEdges, block)) || v in JumpTargets(prog[block])
      decreases prog.Keys - visitOrder.Keys, 2
    {
      hide Invariant, JumpTargets, Turn, ExtendsFrom;
      ghost var before := State();
      ExtendsFromSelf(before, block);
      for i := 0 to |cases|
        invariant Visiting(block, stack)
        invariant ExtendsFrom(before, State(), block)
        invariant immediateDominators == old(immediateDominators)
        invariant forall t <- cases[..i] :: TargetSettled(State(), block, t)
        invariant old(visitOrder.Keys) <= visitOrder.Keys
        invariant forall v <- Edges(succeedingEdges, block) ::
                    v in Edges(before.succs, block) || v in JumpTargets(prog[block])
      {
        ghost var s := State();
        CaseTurn(prog, s, block, stack, i);
        VisitAndRecord(block, cases[i], stack);
        ExtendsFromKeeps(s, State(), block);
        ExtendsFromTransitive(before, s, State(), block);
        forall t <- cases[..i + 1] ensures TargetSettled(State(), block, t) {
          if t in cases[..i] {
            TargetStaysSettled(s, State(), block, t);
          }
        }
      }
      assert cases[..|cases|] == cases;
    }

    // The switch over the terminator.
    method VisitJumpTargets(block: Id, ghost stack: seq<Id>)
      requires Visiting(block, stack) && forall t <- LoopTargets(prog[block]) :: t in visitOrder
      modifies this
      ensures Visiting(block, stack)
      ensures ExtendsFrom(old(State()), State(), block)
      ensures immediateDominators == old(immediateDominators)
      ensures forall t <- JumpTargets(prog[block]) :: TargetSettled(State(), block, t)
      ensures forall v <- Edges(succeedingEdges, block) ::
                v in old(Edges(succeedingEdges, block)) || v in JumpTargets(prog[block])
      decreases prog.Keys - visitOrder.Keys, 3
    {
      hide Invariant, Turn, ExtendsFrom, TargetSettled;
      var b := prog[block];
      ghost var before := State();
      ghost var loops, merges := LoopTargets(b), MergeTargets(b);
      ExtendsFromSelf(before, block);
      match b.terminator
      case Direct =>
        TurnOf(prog, before, block, stack, loops, b.next, merges);
        VisitAndRecord(block, b.next, stack);
      case Select =>
        TurnOf(prog, before, block, stack, loops, b.trueBlock, [b.falseBlock] + merges);
        VisitAndRecord(block, b.trueBlock, stack);
        ghost var middle := State();
        ExtendsFromKeeps(before, middle, block);
        SettledIsKnown(middle, block, b.trueBlock);
        TurnOf(prog, middle, block, stack, loops + [b.trueBlock], b.falseBlock, merges);
        VisitAndRecord(block, b.falseBlock, stack);
        ExtendsFromTransitive(before, middle, State(), block);
        TargetStaysSettled(middle, State(), block, b.trueBlock);
      case MultiSelect =>
        VisitCases(block, b.cases, stack);
        if b.default != 0 {
          ghost var s := State();
          ExtendsFromKeeps(before, s, block);
          DefaultTurn(prog, s, block, stack);
          VisitAndRecord(block, b.default, stack);
          ExtendsFromTransitive(before, s, State(), block);
          forall t <- b.cases ensures TargetSettled(State(), block, t) {
            TargetStaysSettled(s, State(), block, t);
          }
        }
      case _ =>
    }

    // Visits a selection's merge block, recording an implied edge when the merge block would
    // otherwise have a single predecessor other than the header.
    method VisitSelectionMerge(block: Id, ghost stack: seq<Id>)
      requires Visiting(block, stack)
      requires prog[block].merge.MergeSelection?
      requires forall v <- Edges(succeedingEdges, block) :: v in JumpTargets(prog[block])
      requires forall t <- ForcedTargets(prog[block]) :: t in visitOrder
      modifies this
      ensures Visiting(block, stack)
      ensures ExtendsFrom(old(State()), State(), block)
      ensures immediateDominators == old(immediateDominators)
      ensures MergeSettled(prog, State(), block, prog[block].next)
      decreases prog.Keys - visitOrder.Keys, 1
    {
      hide Invariant, Extends, ExtendsFrom, AddBranch, Turn;
      var next := prog[block].next;
      ghost var before := State();
      TurnOf(prog, before, block, stack, ForcedTargets(prog[block]), next, []);
      Exempt(prog, entry, State(), stack, block, next);
      var entered := PostOrderVisit(next, stack);
      ghost var visited := State();
      ExtendsIsFrom(before, visited, block);
      if entered {
        var add := true;
        PredecessorListsNonEmpty(prog, entry, visited, stack, next);
        if next in precedingEdges {
          var pred := precedingEdges[next];
          var succeeding := if block in succeedingEdges then |succeedingEdges[block]| else 0;
          add := if prog[block].terminator.MultiSelect? && succeeding == 1 then pred != []
                 else |pred| == 1 && pred[0] != block;
        }
        EnteredMergeSettles(prog, entry, before, visited, stack, block, next);
        if add {
          AddBranchKeeps(prog, entry, visited, block, next, stack, next);
          AddBranchGrows(visited, block, next);
          AddEdge(block, next);
          ExtendsFromKeeps(visited, State(), block);
          ExtendsFromTransitive(before, visited, State(), block);
        } else {
          Exempt(prog, entry, visited, stack, next, block);
        }
      } else {
        StackIsVisiting(prog, entry, visited, stack, next);
        Exempt(prog, entry, visited, stack, next, block);
      }
    }

    // Visits one target and records the edge unless it leads back to a block being visited.
    method VisitAndRecord(block: Id, target: Id, ghost stack: seq<Id>)
      requires Visiting(block, stack)
      requires target in VisitedTargets(prog[block]) && Turn(prog, State(), target, stack)
      modifies this
      ensures Visiting(block, stack)
      ensures ExtendsFrom(old(State()), State(), block)
      ensures immediateDominators == old(immediateDominators)
      ensures TargetSettled(State(), block, target)
      ensures forall v <- Edges(succeedingEdges, block) :: v in old(Edges(succeedingEdges, block)) || v == target
      decreases prog.Keys - visitOrder.Keys, 1
    {
      hide Invariant, Extends, ExtendsFrom, AddBranch, Turn;
      ghost var before := State();
      Exempt(prog, entry, State(), stack, block, target);
      var entered := PostOrderVisit(target, stack);
      ghost var visited := State();
      ExtendsIsFrom(before, visited, block);
      if entered {
        AddBranchKeeps(prog, entry, visited, block, target, stack, target);
        AddBranchGrows(visited, block, target);
        AddEdge(block, target);
        ExtendsFromKeeps(visited, State(), block);
        ExtendsFromTransitive(before, visited, State(), block);
      } else {
        StackIsVisiting(prog, entry, visited, stack, target);
        Exempt(prog, entry, visited, stack, target, block);
      }
    }

    method BuildPostOrderVisitOrder()
      requires WellFormed(prog) && entry in prog
      requires precedingEdges == map[] && succeedingEdges == map[]
      modifies this
      ensures visitCount == |postOrder|
      ensures Traversed(prog, entry, State())
    {
      visitCount := 0;
      visitOrder := map[];
      postOrder := [];
      path := map[];
      assert Invariant(prog, entry, State(), [], entry);
      var _ := PostOrderVisit(entry, []);
      DoneTraversed(prog, entry, State());
    }

    // Everything later queries rely on.
    ghost predicate Built()
      reads this
    {
      && WellFormed(prog)
      && Traversed(prog, entry, State())
      && immediateDominators.Keys == visitOrder.Keys
      && ExactAbove(precedingEdges, entry, visitOrder, immediateDominators, 0)
    }

    function GetImmediateDominator(block: Id): Id
      reads this
    {
      if block in immediateDominators then immediateDominators[block] else 0
    }

    function GetVisitOrder(block: Id): nat
      requires block in visitOrder && visitOrder[block] > 0
      reads this
    {
      visitOrder[block]
    }

    // The lower of two blocks climbs until both meet: at their nearest common dominator.
    method FindCommonDominator(a: Id, b: Id, ghost k: nat) returns (r: Id)
      requires Numbered(precedingEdges, entry, visitOrder)
      requires ExactAbove(precedingEdges, entry, visitOrder, immediateDominators, k)
      requires a in visitOrder && visitOrder[a] > k && b in visitOrder && visitOrder[b] > k
      ensures r in visitOrder && visitOrder[r] >= visitOrder[a] && visitOrder[r] >= visitOrder[b]
      ensures IsNearestCommonDominator(precedingEdges, entry, r, {a, b})
    {
      var x, y := a, b;
      while x != y
        invariant x in visitOrder && y in visitOrder
        invariant visitOrder[x] >= visitOrder[a] && visitOrder[y] >= visitOrder[b]
        invariant forall d ::
                    Dominates(precedingEdges, entry, d, x) && Dominates(precedingEdges, entry, d, y) <==>
                    Dominates(precedingEdges, entry, d, a) && Dominates(precedingEdges, entry, d, b)
        decreases 2 * visitOrder[entry] - visitOrder[x] - visitOrder[y]
      {
        ghost var x', y' := if visitOrder[x] < visitOrder[y] then immediateDominators[x] else x,
                            if visitOrder[x] < visitOrder[y] then y else immediateDominators[y];
        forall d
          ensures Dominates(precedingEdges, entry, d, x) && Dominates(precedingEdges, entry, d, y) <==>
                  Dominates(precedingEdges, entry, d, x') && Dominates(precedingEdges, entry, d, y')
        {
          if visitOrder[x] < visitOrder[y] {
            ClimbKeepsCommonDominators(precedingEdges, entry, visitOrder, immediateDominators, x, y, d);
          } else {
            ClimbKeepsCommonDominators(precedingEdges, entry, visitOrder, immediateDominators, y, x, d);
          }
        }
        if GetVisitOrder(x) < GetVisitOrder(y) {
          x := GetImmediateDominator(x);
        } else {
          y := GetImmediateDominator(y);
        }
      }
      r := x;
      SelfDominates(precedingEdges, entry, r);
    }

    // One pass in reverse post-order fills the table with exact immediate dominators.
    method BuildImmediateDominators()
      requires WellFormed(prog) && Traversed(prog, entry, State())
      modifies `immediateDominators, `precedingEdges
      ensures Traversed(prog, entry, State())
      ensures forall v :: Edges(precedingEdges, v) == Edges(old(precedingEdges), v)
      ensures immediateDominators.Keys == visitOrder.Keys
      ensures ExactAbove(precedingEdges, entry, visitOrder, immediateDominators, 0)
    {
      hide Traversed, Numbered, Exact;
      immediateDominators := map[entry := entry];
      var i := |postOrder|;
      NumbersInRange(prog, entry, State());
      while i > 0
        invariant 0 <= i <= |postOrder|
        invariant Traversed(prog, entry, State())
        invariant forall v :: Edges(precedingEdges, v) == Edges(old(precedingEdges), v)
        invariant forall b :: b in immediateDominators <==> b in visitOrder && (b == entry || visitOrder[b] > i)
        invariant immediateDominators[entry] == entry
        invariant ExactAbove(precedingEdges, entry, visitOrder, immediateDominators, i)
      {
        var block := postOrder[i - 1];
        BlockAt(prog, entry, State(), i);
        if block !in precedingEdges {
          ghost var before := State();
          precedingEdges := precedingEdges[block := []];
          EmptyListChangesNothing(prog, entry, before, State(), block);
        }
        var pred := precedingEdges[block];
        ghost var table := immediateDominators;
        if pred != [] {
          TraversedIsNumbered(prog, entry, State());
          ResolveBlock(block, pred);
          ExactAboveDepends(precedingEdges, entry, visitOrder, table, immediateDominators, i);
        } else {
          EntryIsExact(precedingEdges, entry, visitOrder, immediateDominators);
        }
        ExactOneMore(precedingEdges, entry, visitOrder, immediateDominators, block, i);
        i := i - 1;
      }
    }

    // Combines the predecessors of one block into its immediate dominator.
    method ResolveBlock(block: Id, pred: seq<Id>)
      requires Numbered(precedingEdges, entry, visitOrder)
      requires block in visitOrder && block in precedingEdges && precedingEdges[block] == pred && pred != []
      requires block !in immediateDominators
      requires forall b <- visitOrder :: visitOrder[b] > visitOrder[block] ==> b in immediateDominators && b != 0
      requires ExactAbove(precedingEdges, entry, visitOrder, immediateDominators, visitOrder[block])
      modifies `immediateDominators
      ensures immediateDominators.Keys == old(immediateDominators.Keys) + {block}
      ensures forall b <- old(immediateDominators) :: immediateDominators[b] == old(immediateDominators)[b]
      ensures Exact(precedingEdges, entry, visitOrder, immediateDominators, block)
    {
      hide Numbered, Exact, Dominates;
      ghost var table := immediateDominators;
      ghost var k := visitOrder[block];
      immediateDominators := immediateDominators[block := 0];
      for j := 0 to |pred|
        invariant immediateDominators.Keys == table.Keys + {block}
        invariant forall b <- table :: immediateDominators[b] == table[b]
        invariant immediateDominators[block] == 0 <==> j == 0
        invariant j > 0 ==> immediateDominators[block] in visitOrder && visitOrder[immediateDominators[block]] > k
        invariant j > 0 ==> Combines(precedingEdges, entry, immediateDominators[block], pred[..j])
      {
        var edge := pred[j];
        PredecessorIsHigher(precedingEdges, entry, visitOrder, edge, block);
        assert pred[..j + 1] == pred[..j] + [edge];
        if immediateDominators[block] != 0 {
          ExactEntry(precedingEdges, entry, visitOrder, table, edge);
          assert edge in immediateDominators && immediateDominators[edge] != 0;
          var d := immediateDominators[block];
          ExactAboveDepends(precedingEdges, entry, visitOrder, table, immediateDominators, k);
          var c := FindCommonDominator(d, edge, k);
          CombineOneMore(precedingEdges, entry, d, pred[..j], edge, c);
          immediateDominators := immediateDominators[block := c];
        } else {
          immediateDominators := immediateDominators[block := edge];
        }
      }
      assert pred[..|pred|] == pred;
      PredecessorIsHigher(precedingEdges, entry, visitOrder, pred[0], block);
      CombinedPredecessorsAreExact(precedingEdges, entry, visitOrder, immediateDominators, block);
    }

    // Climbs from a block to a header while each step provably cannot leave the header's
    // straight-line flow.
    method NodeTerminatesControlFlowInSubGraph(from: Id, to: Id, branchless: (Id, Id) -> bool) returns (r: bool)
      requires Built() && from in prog
      ensures r == Terminates(prog, branchless, precedingEdges, entry, visitOrder, immediateDominators, from, to)
    {
      hide Traversed, Exact, Numbered, WellFormed, Dominates, IsNearestCommonDominator, AllowsTraversal;
      var t := to;
      TraversedIsNumbered(prog, entry, State());
      while t != from
        invariant Terminates(prog, branchless, precedingEdges, entry, visitOrder, immediateDominators, from, to) ==
                  Terminates(prog, branchless, precedingEdges, entry, visitOrder, immediateDominators, from, t)
        decreases if t in visitOrder then visitOrder[entry] - visitOrder[t] else 0
      {
        if t !in precedingEdges {
          return false;
        }
        var dominator := PredecessorsDominator(t);
        if dominator == 0 {
          return false;
        }
        StepUp(prog, entry, State(), immediateDominators, t);
        if AllowsTraversal(prog, branchless, from, dominator, t) {
          t := dominator;
        } else {
          return false;
        }
      }
      return true;
    }

    // Feeds all predecessors of a block to a fresh builder.
    method PredecessorsDominator(block: Id) returns (d: Id)
      requires Built() && block in precedingEdges
      ensures d == 0 <==> precedingEdges[block] == []
      ensures d != 0 ==> block in immediateDominators && d == immediateDominators[block]
    {
      hide Traversed, Exact, Numbered, WellFormed, Dominates, IsNearestCommonDominator, CommonDominatorOf;
      var builder := new DominatorBuilder(this);
      var preds := precedingEdges[block];
      for i := 0 to |preds|
        invariant fresh(builder) && builder.cfg == this && builder.Valid()
        invariant builder.added == set u <- preds[..i]
      {
        builder.AddBlock(preds[i]);
        assert preds[..i + 1] == preds[..i] + [preds[i]];
      }
      assert preds[..|preds|] == preds;
      d := builder.dominator;
      CombinedIsImmediate(prog, entry, State(), immediateDominators, block, d, builder.added);
    }

    // The inner loop of the query: the block to go up to, and whether it is skipped because
    // its own loop ends at b.
    method ChooseHeader(preds: seq<Id>, b: Id) returns (chosen: Id, ignoreLoopHeader: bool)
      requires preds != [] && forall p <- preds :: p in prog && p != NO_DOMINATOR
      ensures chosen == HeaderAmong(prog, preds, b)
      ensures ignoreLoopHeader <==> prog[chosen].merge.MergeLoop? && prog[chosen].mergeBlock == b
    {
      for i := 0 to |preds|
        invariant forall j :: 0 <= j < i ==> !MergesAt(prog, preds[j], b)
      {
        var p := prog[preds[i]];
        if p.merge.MergeLoop? && p.mergeBlock == b {
          HeaderIsFirst(prog, preds, b, i);
          return preds[i], true;
        } else if p.merge.MergeSelection? && p.next == b {
          HeaderIsFirst(prog, preds, b, i);
          return preds[i], false;
        }
      }
      NoHeaderAmong(prog, preds, b);
      return preds[0], false;
    }

    // A query goes from a block to its header if it is a merge block, and to its first
    // predecessor otherwise, until it leaves the body of a loop through its header.
    method FindLoopDominator(block: Id) returns (r: Id)
      requires Built()
      ensures r == LoopHeaderAbove(prog, precedingEdges, entry, visitOrder, block)
    {
      hide Exact, Traversed, Numbered, WellFormed, MergesAt, HeaderAmong, ExactAbove;
      TraversedIsNumbered(prog, entry, State());
      var b := block;
      while b != NO_DOMINATOR
        invariant LoopHeaderAbove(prog, precedingEdges, entry, visitOrder, b) ==
                  LoopHeaderAbove(prog, precedingEdges, entry, visitOrder, block)
        decreases b != NO_DOMINATOR, if b in visitOrder then visitOrder[entry] - visitOrder[b] else 0
      {
        if b !in precedingEdges || precedingEdges[b] == [] {
          return NO_DOMINATOR;
        }
        forall p <- precedingEdges[b] ensures p in prog && p != NO_DOMINATOR {
          KnownPredecessor(prog, entry, State(), p, b);
        }
        var chosen, ignoreLoopHeader := ChooseHeader(precedingEdges[b], b);
        KnownPredecessor(prog, entry, State(), chosen, b);
        if !ignoreLoopHeader && chosen != 0 {
          if prog[chosen].merge.MergeLoop? {
            return chosen;
          }
        }
        b := chosen;
      }
      return b;
    }
  }

  // Numbering a block after its targets keeps the invariant and extends what was there before it.
  lemma VisitEnds(prog: Program, entry: Id, before: Dfs, found: Dfs, last: Dfs, b: Id, stack: seq<Id>)
    requires b !in before.order && b !in before.path && Edges(before.succs, b) == [] && b !in stack
    requires found == Discover(before, b, stack) && ExtendsFrom(found, last, b)
    requires Invariant(prog, entry, last, stack + [b], b) && b in last.path && b in prog
    requires b in last.order && BlockSettled(prog, last, b)
    ensures Invariant(prog, entry, Finish(last, b), stack, b) && Extends(before, Finish(last, b))
  {
    hide Invariant, ExtendsFrom, Extends, BlockSettled, Discover;
    FinishKeeps(prog, entry, last, b, stack);
    FinishExtends(before, found, last, b, stack);
  }

  function LoopTargets(b: Block): seq<Id> { if b.merge.MergeLoop? then [b.mergeBlock] else [] }

  function MergeTargets(b: Block): seq<Id> { if b.merge.MergeSelection? then [b.next] else [] }

  lemma SettledIsKnown(s: Dfs, u: Id, t: Id)
    requires u in s.path && TargetSettled(s, u, t)
    ensures t in s.order
  {
  }

  // It is the turn of case i after those before it.
  lemma CaseTurn(prog: Program, s: Dfs, u: Id, stack: seq<Id>, i: nat)
    requires u in prog && u in s.path && stack != [] && stack[|stack| - 1] == u
    requires prog[u].terminator.MultiSelect? && i < |prog[u].cases|
    requires forall t <- LoopTargets(prog[u]) :: t in s.order
    requires forall t <- prog[u].cases[..i] :: TargetSettled(s, u, t)
    ensures Turn(prog, s, prog[u].cases[i], stack)
    ensures prog[u].cases[i] in VisitedTargets(prog[u]) && prog[u].cases[i] in JumpTargets(prog[u])
  {
    var b := prog[u];
    var after := b.cases[i + 1..] + (if b.default != 0 then [b.default] else []) + MergeTargets(b);
    assert b.cases == b.cases[..i] + [b.cases[i]] + b.cases[i + 1..];
    assert VisitedTargets(b) == (LoopTargets(b) + b.cases[..i]) + [b.cases[i]] + after;
    forall t <- b.cases[..i] ensures t in s.order {
      SettledIsKnown(s, u, t);
    }
    hide TargetSettled, Turn;
    TurnOf(prog, s, u, stack, LoopTargets(b) + b.cases[..i], b.cases[i], after);
  }

  // It is the turn of the default target after all cases.
  lemma DefaultTurn(prog: Program, s: Dfs, u: Id, stack: seq<Id>)
    requires u in prog && u in s.path && stack != [] && stack[|stack| - 1] == u
    requires prog[u].terminator.MultiSelect? && prog[u].default != 0
    requires forall t <- LoopTargets(prog[u]) :: t in s.order
    requires forall t <- prog[u].cases :: TargetSettled(s, u, t)
    ensures Turn(prog, s, prog[u].default, stack)
  {
    var b := prog[u];
    assert VisitedTargets(b) == (LoopTargets(b) + b.cases) + [b.default] + MergeTargets(b);
    forall t <- b.cases ensures t in s.order {
      SettledIsKnown(s, u, t);
    }
    hide TargetSettled, Turn;
    TurnOf(prog, s, u, stack, LoopTargets(b) + b.cases, b.default, MergeTargets(b));
  }

  lemma EnteredMergeSettles(prog: Program, entry: Id, before: Dfs, s: Dfs, stack: seq<Id>, u: Id, m: Id)
    requires Invariant(prog, entry, s, stack, m) && Extends(before, s) && u in before.order
    requires u in prog && u in s.order && s.order[u] == 0 && u in s.path && s.path[u] == stack && m in s.order
    requires forall v <- Edges(before.succs, u) :: v in JumpTargets(prog[u])
    ensures MergeSettled(prog, if ImpliesEdge(prog, s, u, m) then AddBranch(s, u, m) else s, u, m)
  {
    StackIsVisiting(prog, entry, s, stack, m);
    hide Paths, Settled, Entered;
    assert u in Edges(s.preds, m) <==> m in Edges(s.succs, u);
    RuleSettlesMerge(prog, s, u, m);
  }

  // The table holds, for every reachable block but the entry, its immediate dominator.
  lemma ImmediateDominatorsAreExact(cfg: Cfg, b: Id)
    requires cfg.Built()
    ensures b in cfg.immediateDominators <==> Reachable(cfg.prog, cfg.entry, b)
    ensures b == cfg.entry ==> cfg.GetImmediateDominator(b) == b
    ensures Reachable(cfg.prog, cfg.entry, b) && b != cfg.entry ==>
              IsImmediateDominator(cfg.precedingEdges, cfg.entry, cfg.GetImmediateDominator(b), b)
    ensures !Reachable(cfg.prog, cfg.entry, b) ==> cfg.GetImmediateDominator(b) == 0
  {
    hide EdgesComplete, Reachable;
    DominatesEntry(cfg.precedingEdges, cfg.entry, cfg.entry);
    if b in cfg.visitOrder {
      assert Exact(cfg.precedingEdges, cfg.entry, cfg.visitOrder, cfg.immediateDominators, b);
      if b != cfg.entry {
        ExactIsImmediate(cfg.precedingEdges, cfg.entry, cfg.visitOrder, cfg.immediateDominators, b);
      }
    }
  }

  // The recorded predecessors together with every terminator and loop-merge edge, those the
  // traversal dropped included.
  ghost predicate PutsBackDropped(prog: Program, s: Dfs, full: EdgeMap) {
    forall u, v {:trigger u in Edges(full, v)} :: u in Edges(full, v) <==>
      u in Edges(s.preds, v) || (u in s.order && u in prog && v in ForcedTargets(prog[u]))
  }

  // On a reducible function, where the target of each dropped edge dominates its source,
  // dropping the edges loses no dominance.
  lemma DroppedEdgesLoseNothing(prog: Program, entry: Id, s: Dfs, full: EdgeMap, a: Id, b: Id)
    requires Traversed(prog, entry, s)
    requires PutsBackDropped(prog, s, full)
    requires forall u <- s.order, t <- ForcedTargets(prog[u]) ::
               IsAncestor(s, t, u) ==> Dominates(s.preds, entry, t, u)
    ensures Dominates(s.preds, entry, a, b) <==> Dominates(full, entry, a, b)
  {
    PutBackEdges(prog, s, full);
    hide Traversed, PutsBackDropped, IsAncestor, Dominates;
    forall v, u | u in Edges(full, v) && u !in Edges(s.preds, v) ensures Dominates(s.preds, entry, v, u) {
      DroppedIsRetreating(prog, entry, s, u, v);
    }
    RetreatingEdgesKeepDominators(s.preds, full, entry, a, b);
  }

  lemma PutBackEdges(prog: Program, s: Dfs, full: EdgeMap)
    requires PutsBackDropped(prog, s, full)
    ensures forall v, u :: u in Edges(s.preds, v) ==> u in Edges(full, v)
    ensures forall v, u | u in Edges(full, v) && u !in Edges(s.preds, v) ::
              u in s.order && u in prog && v in ForcedTargets(prog[u])
  {
  }

  lemma DroppedIsRetreating(prog: Program, entry: Id, s: Dfs, u: Id, v: Id)
    requires Traversed(prog, entry, s) && u in s.order && u in prog
    requires v in ForcedTargets(prog[u]) && u !in Edges(s.preds, v)
    ensures IsAncestor(s, v, u)
  {
    DroppedEdges(prog, entry, s, u, v);
    hide NumbersReachable, Numbered, IsAncestor, ForcedTargets;
    assert u in Edges(s.preds, v) <==> v in Edges(s.succs, u);
  }

  // Accumulates the nearest common dominator of the blocks added to it.
  class DominatorBuilder {
    const cfg: Cfg
    var dominator: Id
    ghost var added: set<Id>

    ghost predicate Valid()
      reads this, cfg
    {
      && cfg.Built()
      && CommonDominatorOf(cfg.precedingEdges, cfg.entry, cfg.visitOrder, dominator, added)
    }

    constructor (cfg: Cfg)
      requires cfg.Built()
      ensures this.cfg == cfg && Valid() && added == {}
    {
      hide Traversed, Exact, IsNearestCommonDominator, WellFormed, Numbered;
      this.cfg := cfg;
      dominator := 0;
      added := {};
    }

    method AddBlock(block: Id)
      requires Valid()
      modifies this
      ensures Valid() && added == old(added) + {block}
    {
      hide Traversed, Exact, Numbered, CommonDominatorOf, IsNearestCommonDominator, WellFormed;
      ghost var preds, entry, order := cfg.precedingEdges, cfg.entry, cfg.visitOrder;
      ghost var s := added;
      added := added + {block};
      TableIsNonzero(cfg.prog, entry, cfg.State(), cfg.immediateDominators, block);
      TraversedIsNumbered(cfg.prog, entry, cfg.State());
      if cfg.GetImmediateDominator(block) == 0 {
        AddUnvisited(preds, entry, order, dominator, s, block);
        return;
      }
      if dominator == 0 {
        AddFirst(preds, entry, order, s, block);
        dominator := block;
        return;
      }
      ghost var d := dominator;
      if block != dominator {
        DominatorVisited(preds, entry, order, d, s);
        TableIsNonzero(cfg.prog, entry, cfg.State(), cfg.immediateDominators, d);
        dominator := cfg.FindCommonDominator(block, dominator, 0);
        TableIsNonzero(cfg.prog, entry, cfg.State(), cfg.immediateDominators, dominator);
      }
      AddMore(preds, entry, order, d, s, block, dominator);
    }

    // A dominator that jumps to one of its own proper ancestors is a continue block: the
    // entry block takes its place, which dominates everything.
    method LiftContinueBlockDominator()
      requires Valid()
      modifies `dominator
      ensures dominator ==
              if old(dominator) != 0 && JumpsToAncestor(cfg.prog, cfg.State(), old(dominator)) then cfg.entry
              else old(dominator)
      ensures dominator != 0 ==> forall b <- added ::
                b in cfg.visitOrder ==> Dominates(cfg.precedingEdges, cfg.entry, dominator, b)
    {
      hide Traversed, Exact, Numbered, CommonDominatorOf, Dominates, WellFormed, IsAncestor;
      if dominator == 0 {
        return;
      }
      DominatorVisited(cfg.precedingEdges, cfg.entry, cfg.visitOrder, dominator, added);
      DominatesAdded(cfg.precedingEdges, cfg.entry, cfg.visitOrder, dominator, added);
      EntryDominates(cfg.precedingEdges, cfg.entry, added);
      JumpTargetsKnown(cfg.prog, cfg.entry, cfg.State(), dominator);
      var block := cfg.prog[dominator];
      var order := cfg.GetVisitOrder(dominator);
      var backEdge := false;
      match block.terminator {
      case Direct =>
        if cfg.GetVisitOrder(block.next) > order { backEdge := true; }
      case Select =>
        if cfg.GetVisitOrder(block.trueBlock) > order { backEdge := true; }
        if cfg.GetVisitOrder(block.falseBlock) > order { backEdge := true; }
      case MultiSelect =>
        for i := 0 to |block.cases|
          invariant backEdge <==> exists j :: 0 <= j < i && cfg.visitOrder[block.cases[j]] > order
        {
          if cfg.GetVisitOrder(block.cases[i]) > order { backEdge := true; }
        }
        if block.default != 0 && cfg.GetVisitOrder(block.default) > order { backEdge := true; }
      case _ =>
      }
      assert backEdge <==> exists t <- JumpTargets(block) :: cfg.visitOrder[t] > order;
      assert backEdge <==> JumpsToAncestor(cfg.prog, cfg.State(), dominator);
      if backEdge {
        dominator := cfg.entry;
      }
    }
  }

  ghost function Visited(order: map<Id, nat>, s: set<Id>): (r: set<Id>)
    ensures forall b :: b in r <==> b in s && b in order
  {
    set b <- s | b in order
  }

  // d is the nearest common dominator of the visited blocks of s, 0 when there are none.
  ghost predicate CommonDominatorOf(preds: EdgeMap, entry: Id, order: map<Id, nat>, d: Id, s: set<Id>) {
    && (d == 0 <==> Visited(order, s) == {})
    && (d != 0 ==> d in order && IsNearestCommonDominator(preds, entry, d, Visited(order, s)))
  }

  lemma AddUnvisited(preds: EdgeMap, entry: Id, order: map<Id, nat>, d: Id, s: set<Id>, b: Id)
    requires CommonDominatorOf(preds, entry, order, d, s) && b !in order
    ensures CommonDominatorOf(preds, entry, order, d, s + {b})
  {
    assert Visited(order, s + {b}) == Visited(order, s);
  }

  lemma AddFirst(preds: EdgeMap, entry: Id, order: map<Id, nat>, s: set<Id>, b: Id)
    requires CommonDominatorOf(preds, entry, order, 0, s) && b in order && b != 0
    ensures CommonDominatorOf(preds, entry, order, b, s + {b})
  {
    NearestCommonDominatorOfOne(preds, entry, b);
    assert Visited(order, s + {b}) == Visited(order, s) + {b} == {b};
  }

  lemma AddMore(preds: EdgeMap, entry: Id, order: map<Id, nat>, d: Id, s: set<Id>, b: Id, c: Id)
    requires CommonDominatorOf(preds, entry, order, d, s) && d != 0 && b in order
    requires if b == d then c == d else c in order && c != 0 && IsNearestCommonDominator(preds, entry, c, {b, d})
    ensures CommonDominatorOf(preds, entry, order, c, s + {b})
  {
    NearestCommonDominatorOfMore(preds, entry, d, Visited(order, s), b, c);
    assert Visited(order, s + {b}) == Visited(order, s) + {b};
  }

  lemma DominatorVisited(preds: EdgeMap, entry: Id, order: map<Id, nat>, d: Id, s: set<Id>)
    requires CommonDominatorOf(preds, entry, order, d, s) && d != 0
    ensures d in order
  {
  }

  lemma DominatesAdded(preds: EdgeMap, entry: Id, order: map<Id, nat>, d: Id, s: set<Id>)
    requires CommonDominatorOf(preds, entry, order, d, s) && d != 0
    ensures forall b <- s :: b in order ==> Dominates(preds, entry, d, b)
  {
    SelfDominates(preds, entry, d);
  }

  // u ends in a jump to a block that was being visited when u was discovered, other than u.
  ghost predicate JumpsToAncestor(prog: Program, s: Dfs, u: Id) {
    u in prog && exists t <- JumpTargets(prog[u]) :: t != u && IsAncestor(s, t, u)
  }

  lemma JumpTargetsKnown(prog: Program, entry: Id, s: Dfs, u: Id)
    requires WellFormed(prog) && Traversed(prog, entry, s) && u in s.order
    ensures u in prog && entry != 0 && s.order[u] > 0
    ensures forall t <- JumpTargets(prog[u]) ::
              t in s.order && s.order[t] > 0 && (s.order[t] > s.order[u] <==> t != u && IsAncestor(s, t, u))
  {
    NumbersInRange(prog, entry, s);
    forall t <- JumpTargets(prog[u])
      ensures t in s.order && (s.order[t] > s.order[u] <==> t != u && IsAncestor(s, t, u))
    {
      assert t in ForcedTargets(prog[u]);
      DroppedEdges(prog, entry, s, u, t);
    }
  }

  lemma TableIsNonzero(prog: Program, entry: Id, s: Dfs, idom: map<Id, Id>, b: Id)
    requires WellFormed(prog) && Traversed(prog, entry, s)
    requires idom.Keys == s.order.Keys && ExactAbove(s.preds, entry, s.order, idom, 0)
    ensures b in idom ==> idom[b] != 0 && s.order[b] > 0 && b != 0
  {
    hide EdgesComplete, Dominates, Reachable, TreePaths, TargetsInOrder;
    NumbersInRange(prog, entry, s);
    if b in idom {
      assert Exact(s.preds, entry, s.order, idom, b);
    }
  }

  lemma CombinedIsImmediate(prog: Program, entry: Id, s: Dfs, idom: map<Id, Id>, b: Id, d: Id, added: set<Id>)
    requires WellFormed(prog) && Traversed(prog, entry, s)
    requires idom.Keys == s.order.Keys && ExactAbove(s.preds, entry, s.order, idom, 0)
    requires forall u :: u in added <==> u in Edges(s.preds, b)
    requires CommonDominatorOf(s.preds, entry, s.order, d, added)
    ensures d == 0 <==> Edges(s.preds, b) == []
    ensures d != 0 ==> b in idom && d == idom[b]
  {
    hide Traversed, Exact, IsNearestCommonDominator, Dominates, WellFormed;
    TraversedIsNumbered(prog, entry, s);
    forall u <- added ensures u in s.order && b in s.order && b != entry && s.order[u] > s.order[b] {
      PredecessorIsHigher(s.preds, entry, s.order, u, b);
    }
    assert Visited(s.order, added) == added;
    if Edges(s.preds, b) != [] {
      assert Edges(s.preds, b)[0] in added;
      NumbersInRange(prog, entry, s);
      assert Exact(s.preds, entry, s.order, idom, b);
      ExactCombinesPredecessors(s.preds, entry, s.order, idom, b, added);
      ExactInOrder(s.preds, entry, s.order, idom, b);
      NearestCommonDominatorUnique(s.preds, entry, s.order, d, idom[b], added);
    }
  }

  lemma ExactInOrder(preds: EdgeMap, entry: Id, order: map<Id, nat>, idom: map<Id, Id>, b: Id)
    requires b in order && Exact(preds, entry, order, idom, b)
    ensures b in idom && idom[b] in order && (b != entry ==> order[idom[b]] > order[b])
  {
  }

  lemma StepUp(prog: Program, entry: Id, s: Dfs, idom: map<Id, Id>, b: Id)
    requires WellFormed(prog) && Traversed(prog, entry, s)
    requires idom.Keys == s.order.Keys && ExactAbove(s.preds, entry, s.order, idom, 0)
    requires Edges(s.preds, b) != []
    ensures b in idom && idom[b] in prog && idom[b] in s.order
    ensures s.order[b] < s.order[idom[b]] <= s.order[entry]
    ensures WellFormedBlock(prog, idom[b])
  {
    hide NumbersReachable, Dominates;
    PredecessorIsHigher(s.preds, entry, s.order, Edges(s.preds, b)[0], b);
    assert Exact(s.preds, entry, s.order, idom, b);
  }

  ghost predicate WellFormedBlock(prog: Program, b: Id) {
    b in prog && forall t <- VisitedTargets(prog[b]) :: t in prog
  }

  // Nothing runs after the construct of block d: it has none, or ends in an unreachable block.
  predicate MergesToNothing(prog: Program, d: Id)
    requires d in prog
    requires WellFormedBlock(prog, d)
  {
    var b := prog[d];
    || b.merge.MergeNone?
    || (b.merge.MergeSelection? && b.next != 0 && prog[b.next].terminator.Unreachable?)
    || (b.merge.MergeLoop? && b.mergeBlock != 0 && prog[b.mergeBlock].terminator.Unreachable?)
  }

  // Whether the climb may go from `to` to its immediate dominator d: `to` ends d's construct,
  // follows d directly, or is one branch of d while the other runs straight to the merge
  // block of the loop at `from`.
  predicate AllowsTraversal(prog: Program, branchless: (Id, Id) -> bool, from: Id, d: Id, to: Id)
    requires from in prog && d in prog && WellFormedBlock(prog, d)
  {
    var b := prog[d];
    var ignore := if prog[from].merge.MergeLoop? then prog[from].mergeBlock else 0;
    var mayIgnore := (d == from || MergesToNothing(prog, d)) && ignore != 0 && b.terminator.Select?;
    var truePathIgnore := mayIgnore && branchless(b.trueBlock, ignore);
    var falsePathIgnore := mayIgnore && branchless(b.falseBlock, ignore);
    || (b.merge.MergeSelection? && b.next == to)
    || (b.merge.MergeLoop? && b.mergeBlock == to)
    || (b.terminator.Direct? && b.next == to)
    || (b.terminator.Select? && b.trueBlock == to && falsePathIgnore)
    || (b.terminator.Select? && b.falseBlock == to && truePathIgnore)
  }

  // The climb along the table of immediate dominators itself.
  ghost predicate Terminates(prog: Program, branchless: (Id, Id) -> bool, preds: EdgeMap, entry: Id,
                             order: map<Id, nat>, idom: map<Id, Id>, from: Id, to: Id)
    requires from in prog
    decreases if to in order && entry in order && order[to] <= order[entry] then order[entry] - order[to] else 0
  {
    || to == from
    || (&& Edges(preds, to) != []
        && to in idom && to in order && entry in order && idom[to] in order
        && order[to] < order[idom[to]] <= order[entry]
        && WellFormedBlock(prog, idom[to])
        && AllowsTraversal(prog, branchless, from, idom[to], to)
        && Terminates(prog, branchless, preds, entry, order, idom, from, idom[to]))
  }

  // A positive answer means that every way to `to` passes through `from`.
  lemma {:induction false} TerminatesImpliesDominates(prog: Program, branchless: (Id, Id) -> bool, preds: EdgeMap,
                                                      entry: Id, order: map<Id, nat>, idom: map<Id, Id>,
                                                      from: Id, to: Id)
    requires from in prog
    requires Numbered(preds, entry, order) && ExactAbove(preds, entry, order, idom, 0)
    requires Terminates(prog, branchless, preds, entry, order, idom, from, to)
    ensures Dominates(preds, entry, from, to)
    decreases if to in order then order[entry] - order[to] else 0
  {
    if to != from {
      TerminatesImpliesDominates(prog, branchless, preds, entry, order, idom, from, idom[to]);
      assert Exact(preds, entry, order, idom, to);
    }
  }

  // header's own merge construct ends at b.
  predicate MergesAt(prog: Program, header: Id, b: Id) {
    header in prog &&
    match prog[header].merge
    case MergeLoop => prog[header].mergeBlock == b
    case MergeSelection => prog[header].next == b
    case MergeNone => false
  }

  // The first predecessor whose construct ends at b, or the first predecessor.
  function HeaderAmong(prog: Program, preds: seq<Id>, b: Id): (h: Id)
    requires preds != []
    ensures h in preds
  {
    if exists p <- preds :: MergesAt(prog, p, b) then FirstHeader(prog, preds, b) else preds[0]
  }

  function FirstHeader(prog: Program, preds: seq<Id>, b: Id): (h: Id)
    requires exists p <- preds :: MergesAt(prog, p, b)
    ensures h in preds && MergesAt(prog, h, b)
  {
    if MergesAt(prog, preds[0], b) then preds[0] else FirstHeader(prog, preds[1..], b)
  }

  lemma {:induction false} HeaderIsFirst(prog: Program, preds: seq<Id>, b: Id, i: nat)
    requires i < |preds| && MergesAt(prog, preds[i], b)
    requires forall j :: 0 <= j < i ==> !MergesAt(prog, preds[j], b)
    ensures HeaderAmong(prog, preds, b) == preds[i]
    ensures FirstHeader(prog, preds, b) == preds[i]
    decreases i
  {
    assert preds[i] in preds;
    if i > 0 {
      HeaderIsFirst(prog, preds[1..], b, i - 1);
    }
  }

  lemma NoHeaderAmong(prog: Program, preds: seq<Id>, b: Id)
    requires preds != [] && forall j :: 0 <= j < |preds| ==> !MergesAt(prog, preds[j], b)
    ensures HeaderAmong(prog, preds, b) == preds[0]
  {
  }

  lemma KnownPredecessor(prog: Program, entry: Id, s: Dfs, u: Id, b: Id)
    requires WellFormed(prog) && Traversed(prog, entry, s) && u in Edges(s.preds, b)
    ensures u in prog && 0 < u < NO_DOMINATOR
    ensures u in s.order && b in s.order && s.order[b] < s.order[u] <= s.order[entry]
  {
    hide NumbersReachable;
    assert GoesDown(prog, s, u, b);
  }

  // The loop header a query from b ends at, or NoDominator.
  ghost function LoopHeaderAbove(prog: Program, preds: EdgeMap, entry: Id, order: map<Id, nat>, b: Id): Id
    requires Numbered(preds, entry, order)
    decreases if b in order then order[entry] - order[b] else 0
  {
    if b == NO_DOMINATOR || Edges(preds, b) == [] then NO_DOMINATOR
    else
      var h := HeaderAmong(prog, Edges(preds, b), b);
      PredecessorIsHigher(preds, entry, order, h, b);
      if h in prog && prog[h].merge.MergeLoop? && prog[h].mergeBlock != b then h
      else LoopHeaderAbove(prog, preds, entry, order, h)
  }

  // What the query finds is a loop header that reaches the block over recorded edges, by a
  // way that does not enter the header's own merge block first.
  lemma {:induction false} LoopHeaderReaches(prog: Program, preds: EdgeMap, entry: Id, order: map<Id, nat>, b: Id)
    returns (p: seq<Id>)
    requires Numbered(preds, entry, order)
    requires LoopHeaderAbove(prog, preds, entry, order, b) != NO_DOMINATOR
    ensures var h := LoopHeaderAbove(prog, preds, entry, order, b);
            && h in prog && prog[h].merge.MergeLoop?
            && Walk(preds, h, p, b) && |p| >= 2
            && p[1] != prog[h].mergeBlock
            && b in order && h in order && order[h] > order[b]
    decreases order[entry] - (if b in order then order[b] else order[entry])
  {
    var h := HeaderAmong(prog, Edges(preds, b), b);
    PredecessorIsHigher(preds, entry, order, h, b);
    if h in prog && prog[h].merge.MergeLoop? && prog[h].mergeBlock != b {
      p := [h, b];
      assert p[..1] == [h];
    } else {
      var q := LoopHeaderReaches(prog, preds, entry, order, h);
      p := q + [b];
      assert p[..|p| - 1] == q;
    }
  }

  // Giving a block without predecessors an empty list changes no edge.
  lemma EmptyListChangesNothing(prog: Program, entry: Id, s: Dfs, t: Dfs, b: Id)
    requires Traversed(prog, entry, s)
    requires b !in s.preds && t == s.(preds := s.preds[b := []])
    ensures Traversed(prog, entry, t)
    ensures forall v :: Edges(t.preds, v) == Edges(s.preds, v)
  {
    hide NumbersReachable, Numbered, EdgesComplete, TargetsInOrder, TreePaths;
    SameTargetsInOrder(prog, s, t);
    SameTreePaths(prog, entry, s, t);
    SameEdgesComplete(prog, s, t);
    SameNumbered(s.preds, t.preds, entry, s.order, b);
    SameNumbersReachable(prog, entry, s, t);
  }

  lemma SameNumbered(preds: EdgeMap, other: EdgeMap, entry: Id, order: map<Id, nat>, b: Id)
    requires Numbered(preds, entry, order)
    requires b !in preds && other == preds[b := []]
    ensures Numbered(other, entry, order)
  {
    SameDescending(preds, other, order, b);
    hide Descending;
    forall c <- order | c != entry ensures Edges(other, c) != [] {
      assert Edges(preds, c) != [];
    }
  }

  lemma SameDescending(preds: EdgeMap, other: EdgeMap, order: map<Id, nat>, b: Id)
    requires Descending(preds, order) && b !in preds && other == preds[b := []]
    ensures Descending(other, order)
  {
    forall c <- other, p <- other[c] ensures p in order && c in order && order[p] > order[c] {
      assert c in preds;
    }
  }

  lemma SameTreePaths(prog: Program, entry: Id, s: Dfs, t: Dfs)
    requires TreePaths(prog, entry, s) && t.order == s.order && t.path == s.path
    ensures TreePaths(prog, entry, t)
  {
    hide Chain;
    forall b <- t.path, i: int | 0 <= i < |t.path[b]| ensures ThroughPath(t, b, i) {
      assert ThroughPath(s, b, i);
    }
  }

  lemma SameTargetsInOrder(prog: Program, s: Dfs, t: Dfs)
    requires TargetsInOrder(prog, s) && t.order == s.order && t.path == s.path
    ensures TargetsInOrder(prog, t)
  {
    forall x <- t.path, i: int | 0 < i < |t.path[x]| ensures NumberedInOrder(prog, t, x, i) {
      assert NumberedInOrder(prog, s, x, i);
    }
  }

  lemma SameNumbersReachable(prog: Program, entry: Id, s: Dfs, t: Dfs)
    requires NumbersReachable(prog, entry, s) && t.order == s.order && t.post == s.post
    ensures NumbersReachable(prog, entry, t)
  {
  }

  lemma SameEdgesComplete(prog: Program, s: Dfs, t: Dfs)
    requires EdgesComplete(prog, s)
    requires t.order == s.order && t.path == s.path && t.succs == s.succs
    requires forall v :: Edges(t.preds, v) == Edges(s.preds, v)
    ensures EdgesComplete(prog, t)
  {
    forall u, v | u in Edges(t.preds, v) ensures GoesDown(prog, t, u, v) {
      assert GoesDown(prog, s, u, v);
    }
    hide MergeEdge;
    forall u <- t.order, x <- ForcedTargets(prog[u]) ensures ForcedEdge(t, u, x) {
      assert ForcedEdge(s, u, x);
    }
    forall u <- t.order | prog[u].merge.MergeSelection? ensures MergeEdge(prog, t, u, prog[u].next) {
      SameMergeEdge(prog, s, t, u, prog[u].next);
    }
  }

  lemma SameMergeEdge(prog: Program, s: Dfs, t: Dfs, u: Id, m: Id)
    requires u in s.order && u in prog && MergeEdge(prog, s, u, m)
    requires t.order == s.order && t.path == s.path && t.succs == s.succs
    requires Edges(t.preds, m) == Edges(s.preds, m)
    ensures MergeEdge(prog, t, u, m)
  {
    hide LoneCase;
    var pred := Edges(s.preds, m);
    forall i | 0 <= i < |pred| && ComesAt(s, u, m, i) ensures ComesAt(t, u, m, i) {
    }
  }

  lemma NumbersInRange(prog: Program, entry: Id, s: Dfs)
    requires WellFormed(prog) && Traversed(prog, entry, s)
    ensures entry in s.order && s.order[entry] == |s.post|
    ensures forall b <- s.order :: 0 < b && 0 < s.order[b] <= |s.post| && (s.order[b] == |s.post| ==> b == entry)
  {
    hide EdgesDown;
  }

  lemma EntryIsExact(preds: EdgeMap, entry: Id, order: map<Id, nat>, idom: map<Id, Id>)
    requires entry in order && entry in idom && idom[entry] == entry
    ensures Exact(preds, entry, order, idom, entry)
  {
  }

  lemma TraversedIsNumbered(prog: Program, entry: Id, s: Dfs)
    requires Traversed(prog, entry, s)
    ensures Numbered(s.preds, entry, s.order)
  {
  }

  lemma BlockAt(prog: Program, entry: Id, s: Dfs, i: nat)
    requires Traversed(prog, entry, s) && 0 < i <= |s.post|
    ensures s.post[i - 1] in s.order && s.order[s.post[i - 1]] == i
    ensures Edges(s.preds, s.post[i - 1]) == [] <==> s.post[i - 1] == entry
    ensures forall b <- s.order :: s.order[b] == i ==> b == s.post[i - 1]
  {
    hide EdgesComplete;
    if Edges(s.preds, entry) != [] {
      PredecessorIsHigher(s.preds, entry, s.order, Edges(s.preds, entry)[0], entry);
    }
  }
}
