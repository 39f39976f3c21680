// The SPIR-V blocks a control-flow graph is built from (section 2.11 of the SPIR-V
// Specification gives their structured control flow), and walks through recorded edges.
module Blocks {

  type Id = nat

  const NO_DOMINATOR: Id := 0xffff_ffff

  datatype Merge = MergeNone | MergeLoop | MergeSelection

  datatype Terminator = Direct | Select | MultiSelect | Unreachable | OtherTerminator

  // The fields of SPIRBlock that the control-flow analysis reads. An id of 0 means "none".
  datatype Block = Block(
    merge: Merge,
    terminator: Terminator,
    next: Id,
    mergeBlock: Id,
    trueBlock: Id,
    falseBlock: Id,
    cases: seq<Id>,
    default: Id)

  type Program = map<Id, Block>

  // Where control can go from the end of a block, in the order the switch visits it.
  function JumpTargets(b: Block): seq<Id> {
    match b.terminator
    case Direct => [b.next]
    case Select => [b.trueBlock, b.falseBlock]
    case MultiSelect => b.cases + if b.default != 0 then [b.default] else []
    case _ => []
  }

  // The targets whose edge is recorded unless it closes a cycle of the traversal.
  function ForcedTargets(b: Block): seq<Id> {
    (if b.merge.MergeLoop? then [b.mergeBlock] else []) + JumpTargets(b)
  }

  // Every block the traversal tries to enter from b.
  function VisitedTargets(b: Block): seq<Id> {
    ForcedTargets(b) + if b.merge.MergeSelection? then [b.next] else []
  }

  // The part of a list before the first y.
  function Preceding(l: seq<Id>, y: Id): seq<Id> {
    if l == [] || l[0] == y then [] else [l[0]] + Preceding(l[1..], y)
  }

  lemma {:induction false} PrecedingIn(a: seq<Id>, y: Id, c: seq<Id>)
    ensures forall t <- Preceding(a + [y] + c, y) :: t in a
    decreases |a|
  {
    var l := a + [y] + c;
    if a != [] && a[0] != y {
      PrecedingIn(a[1..], y, c);
      assert l[1..] == a[1..] + [y] + c;
    }
  }

  // Ids are nonzero and not the NoDominator mark, and every target names a block.
  ghost predicate WellFormed(prog: Program) {
    forall id <- prog ::
      && 0 < id < NO_DOMINATOR
      && forall t <- VisitedTargets(prog[id]) :: t in prog
  }

  type EdgeMap = map<Id, seq<Id>>

  function Edges(m: EdgeMap, b: Id): seq<Id> {
    if b in m then m[b] else []
  }

  // p is a chain of visit steps from start to finish.
  ghost predicate Chain(prog: Program, start: Id, p: seq<Id>, finish: Id) {
    && |p| > 0
    && p[0] == start
    && p[|p| - 1] == finish
    && (forall i :: 0 <= i < |p| ==> p[i] in prog)
    && (forall i :: 0 < i < |p| ==> p[i] in VisitedTargets(prog[p[i - 1]]))
  }

  // b can be entered from start through terminator and merge targets.
  ghost predicate Reachable(prog: Program, start: Id, b: Id) {
    exists p: seq<Id> :: Chain(prog, start, p, b)
  }

  // A set of blocks closed under visit steps holds everything reachable from it.
  lemma {:induction false} ClosedHoldsChain(prog: Program, start: Id, p: seq<Id>, finish: Id, s: set<Id>)
    requires Chain(prog, start, p, finish)
    requires start in s && s <= prog.Keys
    requires forall b <- s, t <- VisitedTargets(prog[b]) :: t in s
    ensures finish in s
    decreases |p|
  {
    if |p| == 1 {
    } else {
      var q := p[..|p| - 1];
      ClosedHoldsChain(prog, start, q, q[|q| - 1], s);
    }
  }
}
