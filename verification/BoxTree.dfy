// Meshes, box trees over their triangles, and what a query over a tree should report.
module BoxTree {
  import opened Geometry

  datatype IndexedTriangle = IndexedTriangle(r0: nat, r1: nat, r2: nat)

  datatype Mesh = Mesh(faces: seq<IndexedTriangle>, verts: seq<Point>) {
    ghost predicate Valid() {
      forall f <- faces :: f.r0 < |verts| && f.r1 < |verts| && f.r2 < |verts|
    }

    function Tri(i: nat): Triangle
      requires Valid() && i < |faces|
    {
      assert faces[i] in faces;
      Triangle(verts[faces[i].r0], verts[faces[i].r1], verts[faces[i].r2])
    }
  }

  datatype Tree = Leaf(box: Box, prim: nat) | Node(box: Box, pos: Tree, neg: Tree)

  // The primitives at the leaves, positive side first.
  function Prims(t: Tree): (l: seq<nat>)
    ensures l != []
  {
    match t
    case Leaf(_, p) => [p]
    case Node(_, pos, neg) => Prims(pos) + Prims(neg)
  }

  // Every box of the tree holds all triangles below it.
  ghost predicate Covers(t: Tree, m: Mesh) {
    && m.Valid()
    && (forall p <- Prims(t) :: p < |m.faces| && Encloses(t.box, m.Tri(p)))
    && (t.Node? ==> Covers(t.pos, m) && Covers(t.neg, m))
  }

  lemma NodeFacts(t: Tree, m: Mesh)
    requires Covers(t, m)
    ensures m.Valid()
    ensures t.Leaf? ==> Prims(t) == [t.prim] && t.prim < |m.faces|
    ensures t.Node? ==> Prims(t) == Prims(t.pos) + Prims(t.neg) && Covers(t.pos, m) && Covers(t.neg, m)
  {
    assert t.Leaf? ==> t.prim in Prims(t);
  }

  // The primitives of a list that pass a test, in order: the linear scan.
  function Accepted(l: seq<nat>, accept: nat -> bool): (r: seq<nat>)
    ensures forall p :: p in r <==> p in l && accept(p)
  {
    if l == [] then []
    else (if accept(l[0]) then [l[0]] else []) + Accepted(l[1..], accept)
  }

  lemma {:induction false} AcceptedConcat(l: seq<nat>, k: seq<nat>, accept: nat -> bool)
    ensures Accepted(l + k, accept) == Accepted(l, accept) + Accepted(k, accept)
  {
    if l == [] {
      assert l + k == k;
      assert Accepted(l, accept) == [];
    } else {
      hide Accepted;
      AcceptedConcat(l[1..], k, accept);
      AcceptedUnfolds(l + k, accept);
      AcceptedUnfolds(l, accept);
      RestOfConcat(l, k);
      Regrouped(if accept(l[0]) then [l[0]] else [], Accepted(l[1..], accept), Accepted(k, accept));
    }
  }

  lemma RestOfConcat(l: seq<nat>, k: seq<nat>)
    requires l != []
    ensures (l + k)[1..] == l[1..] + k && (l + k)[0] == l[0]
  {
  }

  lemma Regrouped(a: seq<nat>, b: seq<nat>, c: seq<nat>)
    ensures a + (b + c) == (a + b) + c
  {
  }

  lemma AcceptedUnfolds(l: seq<nat>, accept: nat -> bool)
    requires l != []
    ensures Accepted(l, accept) == (if accept(l[0]) then [l[0]] else []) + Accepted(l[1..], accept)
  {
  }

  lemma {:induction false} AcceptedNone(l: seq<nat>, accept: nat -> bool)
    requires forall p <- l :: !accept(p)
    ensures Accepted(l, accept) == []
  {
    if l != [] {
      AcceptedNone(l[1..], accept);
    }
  }

  lemma {:induction false} AcceptedAll(l: seq<nat>, accept: nat -> bool)
    requires forall p <- l :: accept(p)
    ensures Accepted(l, accept) == l
  {
    if l != [] {
      AcceptedAll(l[1..], accept);
    }
  }

  lemma {:induction false} AcceptedSame(l: seq<nat>, accept: nat -> bool, other: nat -> bool)
    requires forall p <- l :: accept(p) == other(p)
    ensures Accepted(l, accept) == Accepted(l, other)
  {
    if l != [] {
      AcceptedSame(l[1..], accept, other);
    }
  }

  // Each accepted primitive is reported as often as it occurs.
  lemma {:induction false} AcceptedCounts(l: seq<nat>, accept: nat -> bool, p: nat)
    ensures multiset(Accepted(l, accept))[p] == if accept(p) then multiset(l)[p] else 0
  {
    if l != [] {
      AcceptedCounts(l[1..], accept, p);
      assert l == [l[0]] + l[1..];
    }
  }

  // What a query reports of the accepted primitives: all of them, or only the first.
  function Report(first: bool, found: seq<nat>): seq<nat> {
    if first && found != [] then [found[0]] else found
  }

  lemma ReportConcat(first: bool, found: seq<nat>, more: seq<nat>)
    ensures Report(first, found + more) ==
            if first && found != [] then Report(first, found) else Report(first, found) + Report(first, more)
  {
    if found == [] {
      assert found + more == more;
    }
  }
}
