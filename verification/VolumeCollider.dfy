// What the volume colliders share: the list of touched primitives and dumping of subtrees.
module VolumeCollider {
  import opened Geometry
  import opened BoxTree
  import opened FlatTree
  import opened Collider

  // From one list and set of flags to the next when some primitives are found, of which the first is
  // enough when asked to.
  predicate FoundStep(touched: seq<nat>, flags: Flags, touched': seq<nat>, flags': Flags, found: seq<nat>) {
    && touched' == touched + Report(flags.firstContact, found)
    && flags' == flags.(contact := flags.contact || found != [])
  }

  // The same when they are what a scan of l accepts.
  predicate ScanStep(touched: seq<nat>, flags: Flags, touched': seq<nat>, flags': Flags, l: seq<nat>,
                     accept: nat -> bool) {
    FoundStep(touched, flags, touched', flags', Accepted(l, accept))
  }

  // What a caller may rely on: in first-contact mode at most one primitive, which is hit, and one if
  // any of the list is; otherwise all that are hit, in order.
  ghost predicate Answers(flags: Flags, l: seq<nat>, hit: nat -> bool, found: seq<nat>) {
    if flags.firstContact then
      |found| <= 1 && (forall p <- found :: p in l && hit(p)) && (found == [] ==> forall p <- l :: !hit(p))
    else found == Accepted(l, hit)
  }

  // The first of a scan, or a known primitive that is hit, are such answers.
  lemma FirstAnswers(flags: Flags, l: seq<nat>, hit: nat -> bool)
    ensures Answers(flags, l, hit, Report(flags.firstContact, Accepted(l, hit)))
  {
    var found := Accepted(l, hit);
    if found != [] {
      assert found[0] in found;
    } else {
      assert forall p <- l :: hit(p) ==> p in found;
    }
  }

  lemma KnownAnswers(flags: Flags, l: seq<nat>, hit: nat -> bool, p: nat)
    requires flags.firstContact && p in l && hit(p)
    ensures Answers(flags, l, hit, [p])
  {
  }

  class Volume {
    const mesh: Mesh
    var mFlags: Flags
    var mTouchedPrimitives: seq<nat>
    var mNbVolumeBVTests: nat
    var mNbVolumePrimTests: nat

    constructor (mesh: Mesh, flags: Flags)
      ensures this.mesh == mesh && mFlags == flags && mTouchedPrimitives == []
    {
      this.mesh := mesh;
      mFlags := flags;
      mTouchedPrimitives := [];
      mNbVolumeBVTests, mNbVolumePrimTests := 0, 0;
    }

    // The query added what a linear scan of l accepts, or its first, and set the contact bit.
    twostate predicate Scanned(l: seq<nat>, accept: nat -> bool)
      reads this
    {
      ScanStep(old(mTouchedPrimitives), old(mFlags), mTouchedPrimitives, mFlags, l, accept)
    }

    // The query added these, or the first of them, and set the contact bit.
    twostate predicate Found(found: seq<nat>)
      reads this
    {
      FoundStep(old(mTouchedPrimitives), old(mFlags), mTouchedPrimitives, mFlags, found)
    }

    method InitQueryEx()
      modifies `mFlags, `mNbVolumeBVTests, `mNbVolumePrimTests
      ensures mFlags == old(mFlags).Cleared()
    {
      mNbVolumeBVTests := 0;
      mNbVolumePrimTests := 0;
      mFlags := mFlags.Cleared();
    }

    method Touch(prim: nat)
      modifies `mFlags, `mTouchedPrimitives
      ensures mFlags == old(mFlags).Touched() && mTouchedPrimitives == old(mTouchedPrimitives) + [prim]
    {
      mFlags := mFlags.Touched();
      mTouchedPrimitives := mTouchedPrimitives + [prim];
    }

    // Reports a whole subtree, or its first primitive once a contact ends the query.
    method Dump(flat: Flat, node: nat, ghost t: Tree)
      requires flat.Holds(node, t)
      modifies `mTouchedPrimitives
      ensures mTouchedPrimitives == old(mTouchedPrimitives) + Report(mFlags.ContactFound(), Prims(t))
      decreases t
    {
      hide Flat.Holds, Flat.At, Flat.Points, IsLeafWord, PrimitiveOf;
      HoldsStep(flat, node, t);
      var n := flat.At(node);
      if IsLeafWord(n.data) {
        mTouchedPrimitives := mTouchedPrimitives + [PrimitiveOf(n.data)];
      } else {
        Dump(flat, n.data, t.pos);
        ReportConcat(mFlags.ContactFound(), Prims(t.pos), Prims(t.neg));
        if mFlags.ContactFound() {
          return;
        }
        Dump(flat, n.data + NODE_SIZE, t.neg);
      }
    }

    method DumpNoLeaf(flat: NoLeafFlat, node: nat, ghost t: Tree)
      requires flat.Holds(node, t)
      modifies `mTouchedPrimitives
      ensures mTouchedPrimitives == old(mTouchedPrimitives) + Report(mFlags.ContactFound(), Prims(t))
      decreases t
    {
      hide NoLeafFlat.Holds, NoLeafFlat.HoldsChild, NoLeafFlat.At, NoLeafFlat.Points, IsLeafWord, PrimitiveOf;
      NoLeafHoldsStep(flat, node, t);
      HoldsChildStep(flat, flat.At(node).data, t.pos);
      HoldsChildStep(flat, flat.At(node).data2, t.neg);
      var n := flat.At(node);
      if IsLeafWord(n.data) {
        mTouchedPrimitives := mTouchedPrimitives + [PrimitiveOf(n.data)];
      } else {
        DumpNoLeaf(flat, n.data, t.pos);
      }
      ReportConcat(mFlags.ContactFound(), Prims(t.pos), Prims(t.neg));
      if mFlags.ContactFound() {
        return;
      }
      if IsLeafWord(n.data2) {
        mTouchedPrimitives := mTouchedPrimitives + [PrimitiveOf(n.data2)];
      } else {
        DumpNoLeaf(flat, n.data2, t.neg);
      }
    }
  }

  // ---- what each way of leaving a node means for the scan

  lemma ScanOfOne(p: nat, accept: nat -> bool)
    ensures Accepted([p], accept) == if accept(p) then [p] else []
  {
    assert [p][1..] == [];
    assert Accepted([], accept) == [];
  }

  lemma FoundNone(touched: seq<nat>, flags: Flags)
    ensures FoundStep(touched, flags, touched, flags, [])
  {
  }

  lemma FoundAll(touched: seq<nat>, flags: Flags, l: seq<nat>)
    requires l != []
    ensures FoundStep(touched, flags, touched + Report(flags.Touched().ContactFound(), l), flags.Touched(), l)
  {
  }

  lemma FoundBoth(t0: seq<nat>, f0: Flags, t1: seq<nat>, f1: Flags, t2: seq<nat>, f2: Flags, found: seq<nat>,
                  more: seq<nat>)
    requires !f0.ContactFound() && FoundStep(t0, f0, t1, f1, found)
    requires if f1.ContactFound() then t2 == t1 && f2 == f1 else FoundStep(t1, f1, t2, f2, more)
    ensures FoundStep(t0, f0, t2, f2, found + more)
  {
    ReportConcat(f0.firstContact, found, more);
  }

  lemma StepOverNone(touched: seq<nat>, flags: Flags, l: seq<nat>, accept: nat -> bool)
    requires Accepted(l, accept) == []
    ensures ScanStep(touched, flags, touched, flags, l, accept)
  {
    FoundNone(touched, flags);
  }

  lemma StepOverOne(touched: seq<nat>, flags: Flags, p: nat, accept: nat -> bool)
    ensures ScanStep(touched, flags, if accept(p) then touched + [p] else touched,
                     if accept(p) then flags.Touched() else flags, [p], accept)
  {
    ScanOfOne(p, accept);
    hide Accepted;
  }

  lemma StepOverAll(touched: seq<nat>, flags: Flags, l: seq<nat>, accept: nat -> bool)
    requires l != [] && Accepted(l, accept) == l
    ensures ScanStep(touched, flags, touched + Report(flags.Touched().ContactFound(), l), flags.Touched(), l, accept)
  {
    FoundAll(touched, flags, l);
  }

  // A first part, and a second one unless the first ended the query.
  lemma StepOverBoth(t0: seq<nat>, f0: Flags, t1: seq<nat>, f1: Flags, t2: seq<nat>, f2: Flags,
                     l: seq<nat>, k: seq<nat>, accept: nat -> bool)
    requires !f0.ContactFound() && ScanStep(t0, f0, t1, f1, l, accept)
    requires if f1.ContactFound() then t2 == t1 && f2 == f1 else ScanStep(t1, f1, t2, f2, k, accept)
    ensures ScanStep(t0, f0, t2, f2, l + k, accept)
  {
    hide FoundStep;
    AcceptedConcat(l, k, accept);
    FoundBoth(t0, f0, t1, f1, t2, f2, Accepted(l, accept), Accepted(k, accept));
  }
}
