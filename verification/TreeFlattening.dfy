// Flattening a built tree into one array, with or without its leaves.
module TreeFlattening {
  import opened Geometry
  import opened BoxTree
  import opened TreeShapes
  import opened TreeBuild
  import opened FlatTree
  import opened TreeLayout

  const NO_BOX: Box := Box(Point(0.0, 0.0, 0.0), Point(0.0, 0.0, 0.0))

  // A complete subtree: one primitive at each tip, read from its slice of the index list.
  ghost predicate Complete(s: Shape, m: Mesh, indices: seq<nat>) {
    s.start + s.count <= |indices| && WellBuilt(s, m, SliceOf(s, indices)) && Single(s)
  }

  ghost function SliceOf(s: Shape, indices: seq<nat>): seq<nat>
    requires s.start + s.count <= |indices|
  {
    indices[s.start..s.start + s.count]
  }

  // The query tree of a complete subtree.
  ghost function TreeOf(s: Shape, m: Mesh, indices: seq<nat>): Tree
    requires Complete(s, m, indices)
  {
    WellBuiltFits(s, m, SliceOf(s, indices));
    ToTree(s, SliceOf(s, indices))
  }

  lemma TreeOfParts(s: Shape, m: Mesh, indices: seq<nat>)
    requires Complete(s, m, indices)
    ensures TreeOf(s, m, indices).box == s.box
    ensures s.Tip? ==> TreeOf(s, m, indices) == Leaf(s.box, indices[s.start])
    ensures s.Fork? ==>
              && Complete(s.pos, m, indices) && Complete(s.neg, m, indices)
              && TreeOf(s, m, indices) == Node(s.box, TreeOf(s.pos, m, indices), TreeOf(s.neg, m, indices))
  {
    if s.Fork? {
      var slice := SliceOf(s, indices);
      assert slice[..s.pos.count] == SliceOf(s.pos, indices);
      assert slice[s.pos.count..] == SliceOf(s.neg, indices);
    }
  }

  lemma {:induction false} SizesMatch(s: Shape, m: Mesh, indices: seq<nat>)
    requires Complete(s, m, indices)
    ensures Size(TreeOf(s, m, indices)) == Nodes(s) && Inner(TreeOf(s, m, indices)) == Forks(s)
    decreases s
  {
    hide TreeOf, Complete;
    TreeOfParts(s, m, indices);
    if s.Fork? {
      SizesMatch(s.pos, m, indices);
      SizesMatch(s.neg, m, indices);
    }
  }

  ghost function Slot(k: nat): multiset<nat> { multiset{k} }

  // Writes the node at boxid and hands out two ids at a time for the nodes below it.
  method BuildCollisionTree(linear: array<CollisionNode>, base: nat, boxid: nat, curid: nat,
                            node: AABBTreeNode, indices: seq<nat>, ghost s: Shape, ghost m: Mesh)
    returns (nextid: nat, ghost written: multiset<nat>)
    requires node.Is(s) && Complete(s, m, indices)
    requires boxid < curid && curid + Nodes(s) - 1 <= linear.Length
    modifies linear
    ensures nextid == curid + Nodes(s) - 1 && written == Slot(boxid) + multiset(Slots(curid, nextid))
    ensures Laid(linear[..], base, boxid, curid, TreeOf(s, m, indices))
    ensures forall k :: 0 <= k < linear.Length && k != boxid && !(curid <= k < nextid) ==> linear[k] == old(linear[k])
    decreases s
  {
    hide Complete, TreeOf, Laid, Slot, Slots, LeafWord;
    TreeOfParts(s, m, indices);
    SizesMatch(s, m, indices);
    linear[boxid] := CollisionNode(node.mBV, 0);
    if node.mP == null && node.mN == null {
      TipInRange(s, m, indices);
      var primitiveIndex := indices[node.mStart];
      linear[boxid] := linear[boxid].(data := LeafWord(primitiveIndex));
      nextid, written := curid, Slot(boxid);
      NoSlots(boxid, curid);
      LeafLaid(linear[..], base, boxid, curid, TreeOf(s, m, indices));
    } else {
      var posID := curid;
      var negID := curid + 1;
      linear[boxid] := linear[boxid].(data := base + posID * NODE_SIZE);
      ghost var top := linear[boxid];
      SizesMatch(s.pos, m, indices);
      SizesMatch(s.neg, m, indices);
      ghost var p, n;
      nextid, p := BuildCollisionTree(linear, base, posID, curid + 2, node.mP, indices, s.pos, m);
      ghost var before := linear[..];
      ghost var mid := nextid;
      nextid, n := BuildCollisionTree(linear, base, negID, nextid, node.mN, indices, s.neg, m);
      LaidFrame(before, linear[..], base, posID, curid + 2, TreeOf(s.pos, m, indices));
      NodeLaid(linear[..], base, boxid, curid, TreeOf(s, m, indices));
      written := Slot(boxid) + (p + n);
      PairSlots(curid, mid, nextid);
    }
  }

  lemma TipInRange(s: Shape, m: Mesh, indices: seq<nat>)
    requires Complete(s, m, indices)
    ensures s.start < |indices|
  {
  }

  lemma LeafLaid(nodes: seq<CollisionNode>, base: nat, boxid: nat, lo: nat, t: Tree)
    requires t.Leaf? && boxid < |nodes| && lo <= |nodes| && nodes[boxid] == CollisionNode(t.box, LeafWord(t.prim))
    ensures Laid(nodes, base, boxid, lo, t)
  {
  }

  lemma NodeLaid(nodes: seq<CollisionNode>, base: nat, boxid: nat, lo: nat, t: Tree)
    requires t.Node? && boxid < |nodes| && lo + Size(t) - 1 <= |nodes|
    requires nodes[boxid] == CollisionNode(t.box, base + lo * NODE_SIZE)
    requires Laid(nodes, base, lo, lo + 2, t.pos) && Laid(nodes, base, lo + 1, lo + 1 + Size(t.pos), t.neg)
    ensures Laid(nodes, base, boxid, lo, t)
  {
  }

  // Both children's slots and those below them follow each other without gap or overlap.
  lemma PairSlots(lo: nat, mid: nat, hi: nat)
    requires lo + 2 <= mid <= hi
    ensures Slot(lo) + multiset(Slots(lo + 2, mid)) + (Slot(lo + 1) + multiset(Slots(mid, hi))) ==
            multiset(Slots(lo, hi))
  {
    SlotsJoin(lo, mid, hi);
    SlotsJoin(lo, lo + 2, mid);
    FirstTwoSlots(lo);
    hide Slots, Slot;
    JoinParts(Slot(lo), Slot(lo + 1), multiset(Slots(lo + 2, mid)), multiset(Slots(mid, hi)),
              multiset(Slots(lo, lo + 2)), multiset(Slots(lo, mid)), multiset(Slots(lo, hi)));
  }

  lemma FirstTwoSlots(lo: nat)
    ensures multiset(Slots(lo, lo + 2)) == Slot(lo) + Slot(lo + 1)
  {
    assert Slots(lo, lo) == [] && Slots(lo, lo + 1) == [lo] && Slots(lo, lo + 2) == [lo, lo + 1];
  }

  lemma JoinParts(a: multiset<nat>, b: multiset<nat>, c: multiset<nat>, d: multiset<nat>,
                  two: multiset<nat>, head: multiset<nat>, whole: multiset<nat>)
    requires two == a + b && head == two + c && whole == head + d
    ensures a + c + (b + d) == whole
  {
  }

  lemma NoSlots(boxid: nat, lo: nat)
    ensures Slot(boxid) + multiset(Slots(lo, lo)) == Slot(boxid)
  {
  }

  // Writes the inner node at boxid; a child that is a tip becomes a tagged word, any other gets the
  // next id.
  method BuildNoLeafTree(linear: array<NoLeafNode>, base: nat, boxid: nat, curid: nat,
                         node: AABBTreeNode, indices: seq<nat>, ghost s: Shape, ghost m: Mesh)
    returns (nextid: nat, ghost written: multiset<nat>)
    requires node.Is(s) && Complete(s, m, indices) && s.Fork?
    requires boxid < curid && curid + Forks(s) - 1 <= linear.Length
    modifies linear
    ensures nextid == curid + Forks(s) - 1 && written == Slot(boxid) + multiset(Slots(curid, nextid))
    ensures NoLeafLaid(linear[..], base, boxid, curid, TreeOf(s, m, indices))
    ensures forall k :: 0 <= k < linear.Length && k != boxid && !(curid <= k < nextid) ==> linear[k] == old(linear[k])
    decreases s, 0
  {
    hide Complete, TreeOf, NoLeafLaid, NoLeafChildLaid, Slot, Slots, LeafWord;
    TreeOfParts(s, m, indices);
    SizesMatch(s.pos, m, indices);
    SizesMatch(s.neg, m, indices);
    ghost var t := TreeOf(s, m, indices);
    linear[boxid] := NoLeafNode(node.mBV, 0, 0);
    ghost var p, n;
    var word;
    word, nextid, p := BuildChild(linear, base, boxid, curid, true, node.mP, indices, s.pos, m);
    ghost var before, mid := linear[..], nextid;
    ghost var data := word;
    word, nextid, n := BuildChild(linear, base, boxid, nextid, false, node.mN, indices, s.neg, m);
    NoLeafChildFrame(before, linear[..], base, data, curid, t.pos);
    InnerLaid(linear[..], base, boxid, curid, t);
    written := Slot(boxid) + (p + n);
    SlotsJoin(curid, mid, nextid);
  }

  // Stores the word for one child in the node at boxid, then writes the child below it.
  method BuildChild(linear: array<NoLeafNode>, base: nat, boxid: nat, curid: nat, positive: bool,
                    child: AABBTreeNode, indices: seq<nat>, ghost s: Shape, ghost m: Mesh)
    returns (word: nat, nextid: nat, ghost written: multiset<nat>)
    requires child.Is(s) && Complete(s, m, indices)
    requires boxid < curid && boxid < linear.Length && curid + Forks(s) <= linear.Length
    modifies linear
    ensures nextid == curid + Forks(s) && written == multiset(Slots(curid, nextid))
    ensures NoLeafChildLaid(linear[..], base, word, curid, TreeOf(s, m, indices))
    ensures linear[boxid] == if positive then old(linear[boxid]).(data := word) else old(linear[boxid]).(data2 := word)
    ensures forall k :: 0 <= k < linear.Length && k != boxid && !(curid <= k < nextid) ==> linear[k] == old(linear[k])
    decreases s, 1
  {
    hide Complete, TreeOf, NoLeafLaid, Slots, LeafWord;
    TreeOfParts(s, m, indices);
    SizesMatch(s, m, indices);
    if child.mP == null && child.mN == null {
      TipInRange(s, m, indices);
      var primitiveIndex := indices[child.mStart];
      word := LeafWord(primitiveIndex);
      linear[boxid] := if positive then linear[boxid].(data := word) else linear[boxid].(data2 := word);
      nextid, written := curid, multiset(Slots(curid, curid));
    } else {
      var id := curid;
      word := base + id * NOLEAF_NODE_SIZE;
      linear[boxid] := if positive then linear[boxid].(data := word) else linear[boxid].(data2 := word);
      nextid, written := BuildNoLeafTree(linear, base, id, curid + 1, child, indices, s, m);
      FirstSlot(id, nextid);
    }
  }

  lemma InnerLaid(nodes: seq<NoLeafNode>, base: nat, boxid: nat, lo: nat, t: Tree)
    requires t.Node? && boxid < |nodes| && lo + Inner(t) - 1 <= |nodes| && nodes[boxid].box == t.box
    requires NoLeafChildLaid(nodes, base, nodes[boxid].data, lo, t.pos)
    requires NoLeafChildLaid(nodes, base, nodes[boxid].data2, lo + Inner(t.pos), t.neg)
    ensures NoLeafLaid(nodes, base, boxid, lo, t)
  {
  }

  lemma SlotsJoin(lo: nat, mid: nat, hi: nat)
    requires lo <= mid <= hi
    ensures multiset(Slots(lo, mid)) + multiset(Slots(mid, hi)) == multiset(Slots(lo, hi))
  {
    SlotsSplit(lo, mid, hi);
  }

  lemma FirstSlot(lo: nat, hi: nat)
    requires lo < hi
    ensures Slot(lo) + multiset(Slots(lo + 1, hi)) == multiset(Slots(lo, hi))
  {
    SlotsSplit(lo, lo + 1, hi);
    assert Slots(lo, lo) == [] && Slots(lo, lo + 1) == [lo];
  }

  const NO_NODE: CollisionNode := CollisionNode(NO_BOX, 0)
  const NO_INNER_NODE: NoLeafNode := NoLeafNode(NO_BOX, 0, 0)

  class AABBCollisionTree {
    var mNodes: array<CollisionNode>
    var mNbNodes: nat
    // Where the nodes were allocated.
    var mBase: nat

    constructor ()
      ensures mNbNodes == 0
    {
      mNodes := new CollisionNode[0](_ => NO_NODE);
      mNbNodes := 0;
      mBase := 0;
    }

    function Data(): Flat
      reads this, mNodes
    {
      Flat(mNodes[..], mBase)
    }

    // Only a complete tree is flattened; its array is filled without gaps and holds the tree.
    method Build(tree: AABBTree, base: nat, ghost s: Shape, ghost m: Mesh, ghost n: nat)
      returns (ok: bool, ghost written: multiset<nat>)
      requires tree.Holds(m, n, s) && base % 2 == 0
      modifies this
      ensures ok == Single(s)
      ensures ok ==>
                && Complete(s, m, tree.mIndices[..]) && mNbNodes == mNodes.Length == 2 * n - 1 && fresh(mNodes)
                && written == multiset(Slots(0, mNbNodes))
                && (SmallPrims(tree.mIndices[..]) ==> Data().Holds(mBase, TreeOf(s, m, tree.mIndices[..])))
    {
      hide Complete, TreeOf, Laid, Single, WellBuilt, Slot, Slots, SmallPrims, AABBTreeNode.Is, AABBTree.Holds,
           Flat.Holds;
      ghost var indices := tree.mIndices[..];
      WholeSlice(tree, m, n, s);
      CountTellsComplete(s, m, indices);
      written := multiset{};
      var nbTriangles := tree.root.mNbPrimitives;
      var nbNodes := tree.mTotalNbNodes;
      if nbNodes != nbTriangles * 2 - 1 {
        return false, written;
      }
      CompleteRoot(s, m, indices);
      mNbNodes := nbNodes;
      mBase := base;
      mNodes := new CollisionNode[mNbNodes](_ => NO_NODE);
      var curID;
      curID, written := BuildCollisionTree(mNodes, base, 0, 1, tree.root, tree.mIndices[..], s, m);
      assert curID == mNbNodes;
      FirstSlot(0, curID);
      if SmallPrims(indices) {
        RootPrims(s, m, indices);
        LaidHolds(mNodes[..], base, 0, 1, TreeOf(s, m, indices));
      }
      ok := true;
    }
  }

  class AABBNoLeafTree {
    var mNodes: array<NoLeafNode>
    var mNbNodes: nat
    var mBase: nat

    constructor ()
      ensures mNbNodes == 0
    {
      mNodes := new NoLeafNode[0](_ => NO_INNER_NODE);
      mNbNodes := 0;
      mBase := 0;
    }

    function Data(): NoLeafFlat
      reads this, mNodes
    {
      NoLeafFlat(mNodes[..], mBase)
    }

    method Build(tree: AABBTree, base: nat, ghost s: Shape, ghost m: Mesh, ghost n: nat)
      returns (ok: bool, ghost written: multiset<nat>)
      requires tree.Holds(m, n, s) && base % 2 == 0 && n > 1
      modifies this
      ensures ok == Single(s)
      ensures ok ==>
                && Complete(s, m, tree.mIndices[..]) && mNbNodes == mNodes.Length == n - 1 && fresh(mNodes)
                && written == multiset(Slots(0, mNbNodes))
                && (SmallPrims(tree.mIndices[..]) ==> Data().Holds(mBase, TreeOf(s, m, tree.mIndices[..])))
    {
      hide Complete, TreeOf, NoLeafLaid, WellBuilt, Slot, Slots, SmallPrims, AABBTreeNode.Is, AABBTree.Holds,
           NoLeafFlat.Holds;
      ghost var indices := tree.mIndices[..];
      WholeSlice(tree, m, n, s);
      CountTellsComplete(s, m, indices);
      written := multiset{};
      var nbTriangles := tree.root.mNbPrimitives;
      var nbNodes := tree.mTotalNbNodes;
      if nbNodes != nbTriangles * 2 - 1 {
        return false, written;
      }
      CompleteRoot(s, m, indices);
      CompleteCounts(s, m, indices);
      hide Single;
      mNbNodes := nbTriangles - 1;
      mBase := base;
      mNodes := new NoLeafNode[mNbNodes](_ => NO_INNER_NODE);
      var curID;
      curID, written := BuildNoLeafTree(mNodes, base, 0, 1, tree.root, tree.mIndices[..], s, m);
      assert curID == mNbNodes;
      FirstSlot(0, curID);
      if SmallPrims(indices) {
        RootPrims(s, m, indices);
        NoLeafLaidHolds(mNodes[..], base, 0, 1, TreeOf(s, m, indices));
      }
      ok := true;
    }
  }

  lemma WholeSlice(tree: AABBTree, m: Mesh, n: nat, s: Shape)
    requires tree.Holds(m, n, s)
    ensures s.start == 0 && s.count == n == |tree.mIndices[..]| && n > 0 && WellBuilt(s, m, tree.mIndices[..])
    ensures tree.mTotalNbNodes == Nodes(s) && tree.root.Is(s) && tree.root.mNbPrimitives == n
  {
  }

  lemma CompleteRoot(s: Shape, m: Mesh, indices: seq<nat>)
    requires s.start == 0 && s.count == |indices| && WellBuilt(s, m, indices) && Single(s)
    ensures Complete(s, m, indices)
  {
    assert SliceOf(s, indices) == indices;
  }

  lemma RootPrims(s: Shape, m: Mesh, indices: seq<nat>)
    requires s.start == 0 && s.count == |indices| && Complete(s, m, indices)
    ensures Prims(TreeOf(s, m, indices)) == indices && Covers(TreeOf(s, m, indices), m)
  {
    assert SliceOf(s, indices) == indices;
    TreeOfSlice(s, m, indices);
  }

  lemma RootTight(s: Shape, m: Mesh, indices: seq<nat>)
    requires s.start == 0 && s.count == |indices| && Complete(s, m, indices)
    ensures Tight(TreeOf(s, m, indices), m)
  {
    assert SliceOf(s, indices) == indices;
    BuiltIsTight(s, m, indices);
  }
}
