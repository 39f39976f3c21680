// What building leaves behind: nodes over nested slices of one index list.
module TreeShapes {
  import opened Geometry
  import opened BoxTree
  import opened TreeBounds

  // A node's box and its slice of the index list.
  datatype Shape =
    | Tip(box: Box, start: nat, count: nat)
    | Fork(box: Box, start: nat, count: nat, pos: Shape, neg: Shape)

  // Each node has the tight box of its slice, and its children share the slice between them.
  ghost predicate WellBuilt(s: Shape, m: Mesh, slice: seq<nat>)
    decreases s
  {
    && |slice| == s.count > 0 && Bounds(s.box, m, slice)
    && (s.Fork? ==>
          && s.pos.start == s.start && s.neg.start == s.start + s.pos.count
          && s.pos.count + s.neg.count == s.count
          && WellBuilt(s.pos, m, slice[..s.pos.count]) && WellBuilt(s.neg, m, slice[s.pos.count..]))
  }

  // Every tip holds one primitive.
  predicate Single(s: Shape) {
    if s.Tip? then s.count == 1 else Single(s.pos) && Single(s.neg)
  }

  function Nodes(s: Shape): nat { if s.Tip? then 1 else 1 + Nodes(s.pos) + Nodes(s.neg) }

  // The inner nodes, which the layout without leaves keeps.
  function Forks(s: Shape): nat { if s.Tip? then 0 else 1 + Forks(s.pos) + Forks(s.neg) }

  lemma {:induction false} CompleteCounts(s: Shape, m: Mesh, slice: seq<nat>)
    requires WellBuilt(s, m, slice) && Single(s)
    ensures Nodes(s) == 2 * s.count - 1 && Forks(s) == s.count - 1
    decreases s
  {
    if s.Fork? {
      CompleteCounts(s.pos, m, slice[..s.pos.count]);
      CompleteCounts(s.neg, m, slice[s.pos.count..]);
    }
  }

  // A tree has one tip at least for each fork, whether it is complete or not, so a node count of
  // 2N - 1 tells a complete one.
  lemma {:induction false} CountTellsComplete(s: Shape, m: Mesh, slice: seq<nat>)
    requires WellBuilt(s, m, slice)
    ensures Nodes(s) <= 2 * s.count - 1
    ensures Nodes(s) == 2 * s.count - 1 <==> Single(s)
    decreases s
  {
    if s.Fork? {
      CountTellsComplete(s.pos, m, slice[..s.pos.count]);
      CountTellsComplete(s.neg, m, slice[s.pos.count..]);
    }
  }

  // Every box contains the boxes of its children.
  ghost predicate Nested(s: Shape)
    decreases s
  {
    s.Fork? ==> ContainsBox(s.box, s.pos.box) && ContainsBox(s.box, s.neg.box) && Nested(s.pos) && Nested(s.neg)
  }

  lemma {:induction false} BoxesNest(s: Shape, m: Mesh, slice: seq<nat>)
    requires WellBuilt(s, m, slice)
    ensures Nested(s)
    decreases s
  {
    hide Bounds, ContainsBox;
    if s.Fork? {
      BoxesNest(s.pos, m, slice[..s.pos.count]);
      BoxesNest(s.neg, m, slice[s.pos.count..]);
      BoundsNest(s.box, s.pos.box, m, slice, slice[..s.pos.count]);
      BoundsNest(s.box, s.neg.box, m, slice, slice[s.pos.count..]);
    }
  }

  // The query tree over a shape whose tips hold one primitive each.
  function ToTree(s: Shape, slice: seq<nat>): Tree
    requires Fits(s, slice)
    decreases s
  {
    match s
    case Tip(box, _, _) => Leaf(box, slice[0])
    case Fork(box, _, _, pos, neg) => Node(box, ToTree(pos, slice[..pos.count]), ToTree(neg, slice[pos.count..]))
  }

  predicate Fits(s: Shape, slice: seq<nat>)
    decreases s
  {
    && |slice| == s.count > 0
    && (s.Fork? ==>
          && s.pos.count + s.neg.count == s.count
          && Fits(s.pos, slice[..s.pos.count]) && Fits(s.neg, slice[s.pos.count..]))
  }

  lemma {:induction false} WellBuiltFits(s: Shape, m: Mesh, slice: seq<nat>)
    requires WellBuilt(s, m, slice)
    ensures Fits(s, slice)
    decreases s
  {
    hide Bounds;
    if s.Fork? {
      WellBuiltFits(s.pos, m, slice[..s.pos.count]);
      WellBuiltFits(s.neg, m, slice[s.pos.count..]);
    }
  }

  // Its leaves, in order, are the slice, and its boxes cover the triangles below.
  lemma {:induction false} TreeOfSlice(s: Shape, m: Mesh, slice: seq<nat>)
    requires WellBuilt(s, m, slice) && Single(s)
    ensures Fits(s, slice)
    ensures Prims(ToTree(s, slice)) == slice && Covers(ToTree(s, slice), m)
    decreases s
  {
    hide Encloses, Reaches;
    WellBuiltFits(s, m, slice);
    if s.Fork? {
      TreeOfSlice(s.pos, m, slice[..s.pos.count]);
      TreeOfSlice(s.neg, m, slice[s.pos.count..]);
      assert slice == slice[..s.pos.count] + slice[s.pos.count..];
    }
  }

  // Every box of the tree is tight around the triangles below it.
  ghost predicate Tight(t: Tree, m: Mesh) {
    Bounds(t.box, m, Prims(t)) && (t.Node? ==> Tight(t.pos, m) && Tight(t.neg, m))
  }

  lemma {:induction false} TightCovers(t: Tree, m: Mesh)
    requires Tight(t, m)
    ensures Covers(t, m)
    decreases t
  {
    hide Encloses, Reaches;
    forall p <- Prims(t) ensures p < |m.faces| && Encloses(t.box, m.Tri(p)) {
      var k :| 0 <= k < |Prims(t)| && Prims(t)[k] == p;
    }
    if t.Node? {
      TightCovers(t.pos, m);
      TightCovers(t.neg, m);
    }
  }

  // The boxes of a built tree are tight.
  lemma {:induction false} BuiltIsTight(s: Shape, m: Mesh, slice: seq<nat>)
    requires WellBuilt(s, m, slice) && Single(s)
    ensures Fits(s, slice) && Tight(ToTree(s, slice), m)
    decreases s
  {
    TreeOfSlice(s, m, slice);
    hide Bounds;
    if s.Fork? {
      BuiltIsTight(s.pos, m, slice[..s.pos.count]);
      BuiltIsTight(s.neg, m, slice[s.pos.count..]);
    }
  }
}
