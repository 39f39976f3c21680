// Flattened trees: arrays of nodes whose words are either addresses or tagged primitives.
module FlatTree {
  import opened Geometry
  import opened BoxTree

  const WORD32: nat := 0x1_0000_0000
  // Bytes of a node: six floats and one or two pointers.
  const NODE_SIZE: nat := 32
  const NOLEAF_NODE_SIZE: nat := 40

  // (index << 1) | 1 on 32 bits.
  function LeafWord(prim: nat): nat { (prim * 2) % WORD32 + 1 }

  predicate IsLeafWord(w: nat) { w % 2 == 1 }

  function PrimitiveOf(w: nat): nat { (w / 2) % WORD32 }

  // A primitive index survives the tagging exactly when it fits in 31 bits.
  lemma LeafWordDecodes(prim: nat)
    ensures IsLeafWord(LeafWord(prim))
    ensures PrimitiveOf(LeafWord(prim)) == prim <==> prim < 0x8000_0000
  {
  }

  datatype CollisionNode = CollisionNode(box: Box, data: nat)

  datatype NoLeafNode = NoLeafNode(box: Box, data: nat, data2: nat)

  // An array of nodes starting at an address.
  datatype Flat = Flat(nodes: seq<CollisionNode>, base: nat) {
    predicate Points(ptr: nat) {
      ptr >= base && (ptr - base) % NODE_SIZE == 0 && (ptr - base) / NODE_SIZE < |nodes|
    }

    function At(ptr: nat): CollisionNode
      requires Points(ptr)
    {
      nodes[(ptr - base) / NODE_SIZE]
    }

    // Reading the node at ptr and following its words gives the tree t.
    ghost predicate Holds(ptr: nat, t: Tree)
      decreases t
    {
      && Points(ptr)
      && At(ptr).box == t.box
      && match t
         case Leaf(_, p) => IsLeafWord(At(ptr).data) && PrimitiveOf(At(ptr).data) == p
         case Node(_, pos, neg) =>
           !IsLeafWord(At(ptr).data) && Holds(At(ptr).data, pos) && Holds(At(ptr).data + NODE_SIZE, neg)
    }
  }

  datatype NoLeafFlat = NoLeafFlat(nodes: seq<NoLeafNode>, base: nat) {
    predicate Points(ptr: nat) {
      ptr >= base && (ptr - base) % NOLEAF_NODE_SIZE == 0 && (ptr - base) / NOLEAF_NODE_SIZE < |nodes|
    }

    function At(ptr: nat): NoLeafNode
      requires Points(ptr)
    {
      nodes[(ptr - base) / NOLEAF_NODE_SIZE]
    }

    // Inner nodes only: a leaf is a tagged word in its parent, and its box is not kept.
    ghost predicate Holds(ptr: nat, t: Tree)
      decreases t, 0
    {
      t.Node? && Points(ptr) && At(ptr).box == t.box
      && HoldsChild(At(ptr).data, t.pos) && HoldsChild(At(ptr).data2, t.neg)
    }

    ghost predicate HoldsChild(w: nat, t: Tree)
      decreases t, 1
    {
      match t
      case Leaf(_, p) => IsLeafWord(w) && PrimitiveOf(w) == p
      case Node(_, _, _) => !IsLeafWord(w) && Holds(w, t)
    }
  }

  // One step of following a word.
  lemma HoldsStep(f: Flat, ptr: nat, t: Tree)
    requires f.Holds(ptr, t)
    ensures f.Points(ptr) && f.At(ptr).box == t.box && IsLeafWord(f.At(ptr).data) == t.Leaf?
    ensures t.Leaf? ==> PrimitiveOf(f.At(ptr).data) == t.prim
    ensures t.Node? ==> f.Holds(f.At(ptr).data, t.pos) && f.Holds(f.At(ptr).data + NODE_SIZE, t.neg)
  {
  }

  lemma NoLeafHoldsStep(f: NoLeafFlat, ptr: nat, t: Tree)
    requires f.Holds(ptr, t)
    ensures t.Node? && f.Points(ptr) && f.At(ptr).box == t.box
    ensures f.HoldsChild(f.At(ptr).data, t.pos) && f.HoldsChild(f.At(ptr).data2, t.neg)
  {
  }

  lemma HoldsChildStep(f: NoLeafFlat, word: nat, t: Tree)
    requires f.HoldsChild(word, t)
    ensures IsLeafWord(word) == t.Leaf?
    ensures t.Leaf? ==> PrimitiveOf(word) == t.prim
    ensures t.Node? ==> f.Holds(word, t)
  {
  }
}
