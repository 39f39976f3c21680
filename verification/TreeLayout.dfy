// Where a flattened tree puts its nodes: children next to each other, in the order ids are handed out.
module TreeLayout {
  import opened BoxTree
  import opened FlatTree

  function Size(t: Tree): (n: nat)
    ensures n > 0
  {
    if t.Leaf? then 1 else 1 + Size(t.pos) + Size(t.neg)
  }

  function Inner(t: Tree): nat { if t.Leaf? then 0 else 1 + Inner(t.pos) + Inner(t.neg) }

  // The tree sits at boxid, and below it in the slots from lo on, both children of a node at once.
  ghost predicate Laid(nodes: seq<CollisionNode>, base: nat, boxid: nat, lo: nat, t: Tree)
    decreases t
  {
    && boxid < |nodes| && lo + Size(t) - 1 <= |nodes| && nodes[boxid].box == t.box
    && match t
       case Leaf(_, p) => nodes[boxid].data == LeafWord(p)
       case Node(_, pos, neg) =>
         && nodes[boxid].data == base + lo * NODE_SIZE
         && Laid(nodes, base, lo, lo + 2, pos) && Laid(nodes, base, lo + 1, lo + 1 + Size(pos), neg)
  }

  lemma {:induction false} LaidFrame(a: seq<CollisionNode>, b: seq<CollisionNode>, base: nat, boxid: nat, lo: nat,
                                     t: Tree)
    requires Laid(a, base, boxid, lo, t) && |a| == |b| && a[boxid] == b[boxid]
    requires forall k :: lo <= k < lo + Size(t) - 1 ==> a[k] == b[k]
    ensures Laid(b, base, boxid, lo, t)
    decreases t
  {
    if t.Node? {
      LaidFrame(a, b, base, lo, lo + 2, t.pos);
      LaidFrame(a, b, base, lo + 1, lo + 1 + Size(t.pos), t.neg);
    }
  }

  ghost predicate SmallPrims(l: seq<nat>) { forall k :: 0 <= k < |l| ==> l[k] < 0x8000_0000 }

  lemma SlotAddress(base: nat, k: nat, size: nat)
    requires size > 0
    ensures (base + k * size - base) / size == k && (base + k * size - base) % size == 0
  {
    ProductDivides(k, size);
  }

  lemma ProductDivides(k: nat, size: nat)
    requires size > 0
    ensures (k * size) / size == k && (k * size) % size == 0
  {
    OnlyQuotient(k, (k * size) / size, (k * size) % size, size);
  }

  // Quotient and remainder are unique.
  lemma OnlyQuotient(k: int, q: int, r: int, size: nat)
    requires k * size == q * size + r && 0 <= r < size
    ensures k == q && r == 0
  {
    assert (k - q) * size == r;
    if k > q {
      AtLeastOnce(k - q, size);
    } else if k < q {
      AtLeastOnce(q - k, size);
    }
  }

  lemma AtLeastOnce(d: int, size: nat)
    requires d >= 1
    ensures d * size >= size
  {
    assert d * size == (d - 1) * size + size;
  }

  // A laid out tree is what following its words finds.
  lemma {:induction false} LaidHolds(nodes: seq<CollisionNode>, base: nat, boxid: nat, lo: nat, t: Tree)
    requires Laid(nodes, base, boxid, lo, t) && base % 2 == 0 && SmallPrims(Prims(t))
    ensures Flat(nodes, base).Holds(base + boxid * NODE_SIZE, t)
    decreases t
  {
    SlotAddress(base, boxid, NODE_SIZE);
    if t.Leaf? {
      assert Prims(t)[0] == t.prim;
      LeafWordDecodes(t.prim);
    } else {
      SmallParts(t);
      LaidHolds(nodes, base, lo, lo + 2, t.pos);
      LaidHolds(nodes, base, lo + 1, lo + 1 + Size(t.pos), t.neg);
    }
  }

  lemma SmallParts(t: Tree)
    requires t.Node? && SmallPrims(Prims(t))
    ensures SmallPrims(Prims(t.pos)) && SmallPrims(Prims(t.neg))
  {
    var l, k := Prims(t.pos), Prims(t.neg);
    assert Prims(t) == l + k;
    forall i | 0 <= i < |l| ensures l[i] < 0x8000_0000 {
      assert Prims(t)[i] == l[i];
    }
    forall i | 0 <= i < |k| ensures k[i] < 0x8000_0000 {
      assert Prims(t)[|l| + i] == k[i];
    }
  }

  // ---- without leaves

  ghost predicate NoLeafLaid(nodes: seq<NoLeafNode>, base: nat, boxid: nat, lo: nat, t: Tree)
    decreases t, 0
  {
    && t.Node? && boxid < |nodes| && lo + Inner(t) - 1 <= |nodes| && nodes[boxid].box == t.box
    && NoLeafChildLaid(nodes, base, nodes[boxid].data, lo, t.pos)
    && NoLeafChildLaid(nodes, base, nodes[boxid].data2, lo + Inner(t.pos), t.neg)
  }

  ghost predicate NoLeafChildLaid(nodes: seq<NoLeafNode>, base: nat, word: nat, lo: nat, t: Tree)
    decreases t, 1
  {
    match t
    case Leaf(_, p) => word == LeafWord(p)
    case Node(_, _, _) => word == base + lo * NOLEAF_NODE_SIZE && NoLeafLaid(nodes, base, lo, lo + 1, t)
  }

  lemma {:induction false} NoLeafLaidFrame(a: seq<NoLeafNode>, b: seq<NoLeafNode>, base: nat, boxid: nat, lo: nat,
                                           t: Tree)
    requires NoLeafLaid(a, base, boxid, lo, t) && |a| == |b| && a[boxid] == b[boxid]
    requires forall k :: lo <= k < lo + Inner(t) - 1 ==> a[k] == b[k]
    ensures NoLeafLaid(b, base, boxid, lo, t)
    decreases t, 0
  {
    NoLeafChildFrame(a, b, base, a[boxid].data, lo, t.pos);
    NoLeafChildFrame(a, b, base, a[boxid].data2, lo + Inner(t.pos), t.neg);
  }

  lemma {:induction false} NoLeafChildFrame(a: seq<NoLeafNode>, b: seq<NoLeafNode>, base: nat, word: nat, lo: nat,
                                            t: Tree)
    requires NoLeafChildLaid(a, base, word, lo, t) && |a| == |b|
    requires forall k :: lo <= k < lo + Inner(t) ==> k < |a| && a[k] == b[k]
    ensures NoLeafChildLaid(b, base, word, lo, t)
    decreases t, 1
  {
    if t.Node? {
      NoLeafLaidFrame(a, b, base, lo, lo + 1, t);
    }
  }

  lemma {:induction false} NoLeafLaidHolds(nodes: seq<NoLeafNode>, base: nat, boxid: nat, lo: nat, t: Tree)
    requires NoLeafLaid(nodes, base, boxid, lo, t) && base % 2 == 0 && SmallPrims(Prims(t))
    ensures NoLeafFlat(nodes, base).Holds(base + boxid * NOLEAF_NODE_SIZE, t)
    decreases t, 0
  {
    SlotAddress(base, boxid, NOLEAF_NODE_SIZE);
    SmallParts(t);
    NoLeafChildHolds(nodes, base, nodes[boxid].data, lo, t.pos);
    NoLeafChildHolds(nodes, base, nodes[boxid].data2, lo + Inner(t.pos), t.neg);
  }

  lemma {:induction false} NoLeafChildHolds(nodes: seq<NoLeafNode>, base: nat, word: nat, lo: nat, t: Tree)
    requires NoLeafChildLaid(nodes, base, word, lo, t) && base % 2 == 0 && SmallPrims(Prims(t))
    ensures NoLeafFlat(nodes, base).HoldsChild(word, t)
    decreases t, 1
  {
    if t.Leaf? {
      assert Prims(t)[0] == t.prim;
      LeafWordDecodes(t.prim);
    } else {
      NoLeafLaidHolds(nodes, base, lo, lo + 1, t);
    }
  }

  // The slots from a up to b.
  function Slots(a: nat, b: nat): seq<nat>
    requires a <= b
    decreases b
  {
    if a == b then [] else Slots(a, b - 1) + [b - 1]
  }

  lemma {:induction false} SlotsSplit(a: nat, b: nat, c: nat)
    requires a <= b <= c
    ensures Slots(a, c) == Slots(a, b) + Slots(b, c)
    decreases c
  {
    if b == c {
    } else {
      SlotsSplit(a, b, c - 1);
    }
  }
}
