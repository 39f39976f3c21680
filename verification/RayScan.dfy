// The linear scan a ray query must agree with, and what it leaves in each mode.
module RayScan {
  import opened Geometry
  import opened RigidTransforms
  import opened WorldTransforms
  import opened BoxTree
  import opened RayTests

  datatype Face = Face(id: nat, distance: real, u: real, v: real)

  // bounded: whether maxDist limits the query.
  datatype Query = Query(ray: Ray, culling: bool, bounded: bool, maxDist: real, closest: bool, first: bool, keep: bool)

  // What a caller sees: the contact bit and the destination array.
  datatype Result = Result(contact: bool, faces: seq<Face>)

  predicate Crosses(q: Query, m: Mesh, p: nat)
    requires m.Valid() && p < |m.faces|
  {
    RayHits(q.ray, q.culling, m.Tri(p)) && CrossingOf(q.ray, m.Tri(p)).distance >= 0.0
  }

  // The ray meets triangle p ahead of its origin and below the bound.
  predicate Takes(q: Query, m: Mesh, p: nat)
    requires m.Valid()
  {
    p < |m.faces| && Crosses(q, m, p) && (q.bounded ==> CrossingOf(q.ray, m.Tri(p)).distance < q.maxDist)
  }

  function FaceAt(q: Query, m: Mesh, p: nat): Face
    requires m.Valid() && Takes(q, m, p)
  {
    var c := CrossingOf(q.ray, m.Tri(p));
    Face(p, c.distance, c.u, c.v)
  }

  // A stored face names its triangle, and its distance and coordinates are where the ray meets the
  // triangle, ahead of the origin and below the bound.
  lemma FaceIsCrossing(q: Query, m: Mesh, p: nat)
    requires m.Valid() && Takes(q, m, p)
    ensures Meets(q, m.Tri(p), FaceAt(q, m, p)) && FaceAt(q, m, p).id == p
  {
    CrossingMeets(q, m.Tri(p), p);
    hide RayDet, CrossingOf, Along, At, Meets;
  }

  ghost predicate Meets(q: Query, t: Triangle, f: Face) {
    && Solves(q.ray, t, Crossing(f.distance, f.u, f.v)) && Barycentric(f.u, f.v)
    && f.distance >= 0.0 && (q.bounded ==> f.distance < q.maxDist)
  }

  // The crossing of a triangle that is taken is the only one there is.
  lemma OnlyCrossing(q: Query, m: Mesh, p: nat, c: Crossing)
    requires m.Valid() && Takes(q, m, p) && Solves(q.ray, m.Tri(p), c)
    ensures FaceAt(q, m, p) == Face(p, c.distance, c.u, c.v)
  {
    SolutionIsCrossing(q.ray, m.Tri(p), c);
    hide RayDet, CrossingOf, Along, At;
  }

  // The face that is left of closest-hit mode holds the crossing of its triangle, and no crossing of
  // a triangle that is taken is nearer.
  lemma NearestIsLeast(q: Query, m: Mesh, f: Face, l: seq<nat>, i: nat)
    requires m.Valid() && Nearest(q, m, f, l, i)
    ensures f.id == l[i] && f.id < |m.faces| && Meets(q, m.Tri(f.id), f)
    ensures forall p <- l, c: Crossing :: Takes(q, m, p) && Solves(q.ray, m.Tri(p), c) ==> f.distance <= c.distance
  {
    hide FaceAt, Meets, Solves;
    FaceIsCrossing(q, m, l[i]);
    forall p <- l, c: Crossing | Takes(q, m, p) && Solves(q.ray, m.Tri(p), c) ensures f.distance <= c.distance {
      OnlyCrossing(q, m, p, c);
      var j :| 0 <= j < |l| && l[j] == p;
    }
  }

  function Contact(q: Query, s: Result, f: Face): Result {
    Result(true,
           if !q.keep then s.faces
           else if !q.closest || s.faces == [] then s.faces + [f]
           else if f.distance < s.faces[0].distance then s.faces[0 := f]
           else s.faces)
  }

  function Step(q: Query, m: Mesh, s: Result, p: nat): Result
    requires m.Valid()
  {
    if Takes(q, m, p) then Contact(q, s, FaceAt(q, m, p)) else s
  }

  // The scan, stopping at the first contact when asked to.
  function Scan(q: Query, m: Mesh, s: Result, l: seq<nat>): Result
    requires m.Valid()
    decreases |l|
  {
    if l == [] then s
    else
      var s' := Step(q, m, s, l[0]);
      if q.first && s'.contact then s' else Scan(q, m, s', l[1..])
  }

  lemma {:induction false} ScanConcat(q: Query, m: Mesh, s: Result, l: seq<nat>, k: seq<nat>)
    requires m.Valid() && !(q.first && s.contact)
    ensures Scan(q, m, s, l + k) ==
            var s' := Scan(q, m, s, l); if q.first && s'.contact then s' else Scan(q, m, s', k)
    decreases |l|
  {
    if l == [] {
      assert l + k == k;
    } else {
      assert (l + k)[1..] == l[1..] + k;
      var s' := Step(q, m, s, l[0]);
      if !(q.first && s'.contact) {
        ScanConcat(q, m, s', l[1..], k);
      }
    }
  }

  // Every face names a triangle of the mesh and holds its crossing.
  ghost predicate AllMeet(q: Query, m: Mesh, faces: seq<Face>)
    requires m.Valid()
  {
    forall f <- faces :: f.id < |m.faces| && Meets(q, m.Tri(f.id), f)
  }

  // In every mode, all that a scan leaves in the destination are crossings.
  lemma {:induction false} ScanMeets(q: Query, m: Mesh, s: Result, l: seq<nat>)
    requires m.Valid() && AllMeet(q, m, s.faces)
    ensures AllMeet(q, m, Scan(q, m, s, l).faces)
    decreases |l|
  {
    if l != [] {
      hide Takes, FaceAt, Meets;
      if Takes(q, m, l[0]) {
        FaceIsCrossing(q, m, l[0]);
      }
      var s' := Step(q, m, s, l[0]);
      if !(q.first && s'.contact) {
        ScanMeets(q, m, s', l[1..]);
      }
    }
  }

  // Triangles that are not taken can be skipped.
  lemma {:induction false} ScanSkips(q: Query, m: Mesh, s: Result, l: seq<nat>)
    requires m.Valid() && !(q.first && s.contact)
    requires forall p <- l :: !Takes(q, m, p)
    ensures Scan(q, m, s, l) == s
    decreases |l|
  {
    if l != [] {
      ScanSkips(q, m, s, l[1..]);
    }
  }

  function Taken(q: Query, m: Mesh, l: seq<nat>): seq<nat>
    requires m.Valid()
  {
    Accepted(l, (p: nat) => Takes(q, m, p))
  }

  // The contact bit says whether anything was taken.
  lemma {:induction false} ScanContact(q: Query, m: Mesh, s: Result, l: seq<nat>)
    requires m.Valid() && !(q.first && s.contact)
    ensures Scan(q, m, s, l).contact <==> s.contact || Taken(q, m, l) != []
    decreases |l|
  {
    if l != [] {
      var s' := Step(q, m, s, l[0]);
      if !(q.first && s'.contact) {
        ScanContact(q, m, s', l[1..]);
      }
    }
  }

  ghost predicate FacesOf(q: Query, m: Mesh, faces: seq<Face>, l: seq<nat>)
    requires m.Valid()
  {
    |faces| == |l| && forall i :: 0 <= i < |l| ==> Takes(q, m, l[i]) && faces[i] == FaceAt(q, m, l[i])
  }

  lemma TakenUnfolds(q: Query, m: Mesh, l: seq<nat>)
    requires m.Valid() && l != []
    ensures Taken(q, m, l) == (if Takes(q, m, l[0]) then [l[0]] else []) + Taken(q, m, l[1..])
  {
    AcceptedUnfolds(l, (p: nat) => Takes(q, m, p));
  }

  lemma OneMoreFace(q: Query, m: Mesh, p: nat, faces: seq<Face>, l: seq<nat>)
    requires m.Valid() && Takes(q, m, p) && FacesOf(q, m, faces, l)
    ensures FacesOf(q, m, [FaceAt(q, m, p)] + faces, [p] + l)
  {
    hide Takes, FaceAt;
  }

  // Without closest-hit mode the destination gains one face per triangle taken, in order, or just
  // the first. A first contact is also all that is left of closest-hit mode.
  lemma {:induction false} ScanReports(q: Query, m: Mesh, s: Result, l: seq<nat>) returns (faces: seq<Face>)
    requires m.Valid() && q.keep && !(q.first && s.contact) && (q.closest ==> q.first && s.faces == [])
    ensures Scan(q, m, s, l).faces == s.faces + faces
    ensures FacesOf(q, m, faces, Report(q.first, Taken(q, m, l)))
    decreases |l|
  {
    if l == [] {
      faces := [];
    } else {
      hide Taken, Takes, FaceAt, Accepted, FacesOf, Step;
      TakenUnfolds(q, m, l);
      if Takes(q, m, l[0]) {
        var f := FaceAt(q, m, l[0]);
        StepTakes(q, m, s, l[0]);
        if q.first {
          faces := [f];
          OneFace(q, m, l[0]);
          assert Report(true, [l[0]] + Taken(q, m, l[1..])) == [l[0]];
        } else {
          var rest := ScanReports(q, m, Step(q, m, s, l[0]), l[1..]);
          OneMoreFace(q, m, l[0], rest, Taken(q, m, l[1..]));
          faces := [f] + rest;
          assert s.faces + [f] + rest == s.faces + faces;
        }
      } else {
        StepSkips(q, m, s, l[0]);
        faces := ScanReports(q, m, s, l[1..]);
        assert [] + Taken(q, m, l[1..]) == Taken(q, m, l[1..]);
      }
    }
  }

  lemma StepTakes(q: Query, m: Mesh, s: Result, p: nat)
    requires m.Valid() && q.keep && (q.closest ==> s.faces == []) && Takes(q, m, p)
    ensures Step(q, m, s, p) == Result(true, s.faces + [FaceAt(q, m, p)])
  {
    hide Takes, FaceAt;
  }

  lemma StepSkips(q: Query, m: Mesh, s: Result, p: nat)
    requires m.Valid() && !Takes(q, m, p)
    ensures Step(q, m, s, p) == s
  {
    hide Takes;
  }

  lemma OneFace(q: Query, m: Mesh, p: nat)
    requires m.Valid() && Takes(q, m, p)
    ensures FacesOf(q, m, [FaceAt(q, m, p)], [p])
  {
    hide Takes, FaceAt;
  }

  // f belongs to a triangle of the list, no triangle of the list is nearer, and those before
  // it are farther.
  ghost predicate Nearest(q: Query, m: Mesh, f: Face, l: seq<nat>, i: nat)
    requires m.Valid()
  {
    && i < |l| && Takes(q, m, l[i]) && f == FaceAt(q, m, l[i])
    && (forall j :: 0 <= j < |l| && Takes(q, m, l[j]) ==> f.distance <= FaceAt(q, m, l[j]).distance)
    && (forall j :: 0 <= j < i && Takes(q, m, l[j]) ==> f.distance < FaceAt(q, m, l[j]).distance)
  }

  lemma NearestLater(q: Query, m: Mesh, f: Face, l: seq<nat>, i: nat)
    requires m.Valid() && l != [] && Nearest(q, m, f, l[1..], i)
    requires Takes(q, m, l[0]) ==> f.distance < FaceAt(q, m, l[0]).distance
    ensures Nearest(q, m, f, l, i + 1)
  {
    hide Takes, FaceAt;
    forall j | 0 <= j < |l| && Takes(q, m, l[j]) ensures f.distance <= FaceAt(q, m, l[j]).distance {
      if j > 0 {
        assert l[1..][j - 1] == l[j];
      }
    }
    forall j | 0 <= j < i + 1 && Takes(q, m, l[j]) ensures f.distance < FaceAt(q, m, l[j]).distance {
      if j > 0 {
        assert l[1..][j - 1] == l[j];
      }
    }
  }

  lemma NearestFirst(q: Query, m: Mesh, l: seq<nat>)
    requires m.Valid() && l != [] && Takes(q, m, l[0])
    requires forall k :: 0 <= k < |l[1..]| && Takes(q, m, l[1..][k]) ==>
               FaceAt(q, m, l[0]).distance <= FaceAt(q, m, l[1..][k]).distance
    ensures Nearest(q, m, FaceAt(q, m, l[0]), l, 0)
  {
    hide Takes, FaceAt;
    forall j | 0 <= j < |l| && Takes(q, m, l[j]) ensures FaceAt(q, m, l[0]).distance <= FaceAt(q, m, l[j]).distance {
      if j > 0 {
        assert l[1..][j - 1] == l[j];
      }
    }
  }

  // In closest-hit mode one face remains, of the first among the nearest triangles taken.
  lemma {:induction false} ScanKeepsNearest(q: Query, m: Mesh, s: Result, l: seq<nat>) returns (i: nat)
    requires m.Valid() && q.keep && q.closest && !q.first && s.faces == []
    ensures Taken(q, m, l) == [] ==> Scan(q, m, s, l).faces == []
    ensures Taken(q, m, l) != [] ==>
              |Scan(q, m, s, l).faces| == 1 && Nearest(q, m, Scan(q, m, s, l).faces[0], l, i)
    decreases |l|
  {
    i := 0;
    if l != [] {
      hide Taken, Takes, FaceAt, Nearest;
      TakenUnfolds(q, m, l);
      if Takes(q, m, l[0]) {
        var s' := Step(q, m, s, l[0]);
        var j := ScanImproves(q, m, s', l[1..], s'.faces[0]);
        if j.0 {
          i := j.1 + 1;
          NearestLater(q, m, Scan(q, m, s, l).faces[0], l, j.1);
        } else {
          NearestFirst(q, m, l);
        }
      } else {
        i := ScanKeepsNearest(q, m, s, l[1..]);
        if Taken(q, m, l) != [] {
          NearestLater(q, m, Scan(q, m, s, l).faces[0], l, i);
        }
        i := i + 1;
      }
    }
  }

  // With a face kept already, the scan ends with that face or with a strictly nearer one.
  lemma {:induction false} ScanImproves(q: Query, m: Mesh, s: Result, l: seq<nat>, f: Face) returns (j: (bool, nat))
    requires m.Valid() && q.keep && q.closest && !q.first && s.faces == [f]
    ensures |Scan(q, m, s, l).faces| == 1
    ensures var g := Scan(q, m, s, l).faces[0];
            if j.0 then g.distance < f.distance && Nearest(q, m, g, l, j.1)
            else g == f && forall k :: 0 <= k < |l| && Takes(q, m, l[k]) ==> f.distance <= FaceAt(q, m, l[k]).distance
    decreases |l|
  {
    j := (false, 0);
    if l != [] {
      var s' := Step(q, m, s, l[0]);
      var g := s'.faces[0];
      assert s'.faces == [g];
      var k := ScanImproves(q, m, s', l[1..], g);
      if k.0 {
        j := (true, k.1 + 1);
      } else if g != f {
        j := (true, 0);
      }
    }
  }

  // ---- the ray in the space of the model

  // The ray as the code moves it back through the model's world matrix, if there is one.
  function InModel(r: Ray, world: World): Ray {
    if world.Set? then Ray(Inverse(world.matrix).Apply(r.origin), Inverse(world.matrix).rot.Apply(r.dir)) else r
  }

  lemma TurnsBack(m: Matrix3, p: Point)
    requires m.Rotation()
    ensures m.Apply(m.Transpose().Apply(p)) == p
  {
    var r := Rigid(m, Point(0.0, 0.0, 0.0));
    InverseUndoes(r, p);
    NoTranslation(m);
    hide Matrix3.Apply, Matrix3.Rotation, Matrix3.Transpose, Inverse, Rigid.Apply;
    OnlyTurns(m, m.Transpose().Apply(p));
    OnlyTurns(m.Transpose(), p);
  }

  lemma NoTranslation(m: Matrix3)
    ensures Inverse(Rigid(m, Point(0.0, 0.0, 0.0))) == Rigid(m.Transpose(), Point(0.0, 0.0, 0.0))
  {
    DotOfZero(m.r0);
    DotOfZero(m.r1);
    DotOfZero(m.r2);
    hide Point.Dot;
  }

  lemma OnlyTurns(m: Matrix3, p: Point)
    ensures Rigid(m, Point(0.0, 0.0, 0.0)).Apply(p) == m.Apply(p)
  {
    hide Matrix3.Apply;
  }

  // Determinants and products of vectors are the same after a rotation.
  lemma KeepsTriple(m: Matrix3, a: Point, b: Point, c: Point)
    requires m.Rotation()
    ensures m.Apply(a).Dot(m.Apply(b).Cross(m.Apply(c))) == a.Dot(b.Cross(c))
  {
    KeepsCross(m, b, c);
    KeepsDot(m, a, b.Cross(c));
  }

  lemma TurnedOffsets(r: Ray, t: Triangle, w: Rigid)
    requires w.rot.Rotation()
    ensures var r', t' := InModel(r, Set(w)), Moved(t, w);
            && w.rot.Apply(r'.dir) == r.dir && w.rot.Apply(r'.origin.Minus(t.v0)) == r.origin.Minus(t'.v0)
            && w.rot.Apply(Edge1(t)) == Edge1(t') && w.rot.Apply(Edge2(t)) == Edge2(t')
  {
    hide Matrix3.Apply, Matrix3.Rotation, Matrix3.Transpose;
    TurnsBack(w.rot, r.dir);
    InverseUndoes(w, r.origin);
    OffsetTurns(w, t.v1, t.v0);
    OffsetTurns(w, t.v2, t.v0);
    OffsetTurns(w, InModel(r, Set(w)).origin, t.v0);
    InverseTurns(w);
    hide Inverse, Rigid.Apply;
  }

  lemma InverseTurns(w: Rigid)
    ensures Inverse(w).rot == w.rot.Transpose()
  {
  }

  lemma OffsetTurns(w: Rigid, p: Point, q: Point)
    ensures w.rot.Apply(p.Minus(q)) == w.Apply(p).Minus(w.Apply(q))
  {
    Difference(w.rot, p, q);
    hide Matrix3.Apply;
  }

  lemma SameCrossing(r: Ray, t: Triangle, r': Ray, t': Triangle)
    requires RayDet(r, t) == RayDet(r', t')
    requires var a, a' := r.origin.Minus(t.v0), r'.origin.Minus(t'.v0);
             && Edge2(t).Dot(a.Cross(Edge1(t))) == Edge2(t').Dot(a'.Cross(Edge1(t')))
             && a.Dot(r.dir.Cross(Edge2(t))) == a'.Dot(r'.dir.Cross(Edge2(t')))
             && r.dir.Dot(a.Cross(Edge1(t))) == r'.dir.Dot(a'.Cross(Edge1(t')))
    ensures RayDet(r, t) != 0.0 ==> CrossingOf(r, t) == CrossingOf(r', t')
  {
    hide Point.Dot, Point.Cross, Point.Minus, Edge1, Edge2, RayDet;
  }

  // A ray moved back meets a triangle just where the ray meets the placed triangle.
  lemma CrossingInWorld(r: Ray, t: Triangle, w: Rigid)
    requires w.rot.Rotation()
    ensures RayDet(InModel(r, Set(w)), t) == RayDet(r, Moved(t, w))
    ensures RayDet(r, Moved(t, w)) != 0.0 ==> CrossingOf(InModel(r, Set(w)), t) == CrossingOf(r, Moved(t, w))
  {
    hide Matrix3.Apply, Matrix3.Rotation, Point.Dot, Point.Cross, InModel, Moved, Edge1, Edge2;
    var r', t' := InModel(r, Set(w)), Moved(t, w);
    TurnedOffsets(r, t, w);
    var e, f, d, a := Edge1(t), Edge2(t), r'.dir, r'.origin.Minus(t.v0);
    KeepsTriple(w.rot, e, d, f);
    KeepsTriple(w.rot, f, a, e);
    KeepsTriple(w.rot, a, d, f);
    KeepsTriple(w.rot, d, a, e);
    SameCrossing(r', t, r, t');
  }

  // What the query asks of a triangle is what the ray asks of it where it stands in the world.
  predicate TakesPlaced(q: Query, m: Mesh, world: World, p: nat)
    requires m.Valid()
  {
    p < |m.faces| && var t := Moved(m.Tri(p), world.Value());
    && RayHits(q.ray, q.culling, t) && CrossingOf(q.ray, t).distance >= 0.0
    && (q.bounded ==> CrossingOf(q.ray, t).distance < q.maxDist)
  }

  lemma TakesInWorld(q: Query, m: Mesh, world: World, p: nat)
    requires m.Valid() && world.Value().rot.Rotation()
    ensures Takes(q.(ray := InModel(q.ray, world)), m, p) == TakesPlaced(q, m, world, p)
  {
    hide RayDet, CrossingOf, Matrix3.Rotation, Moved, InModel, World.Value;
    if p < |m.faces| {
      CrossingPlaced(q.ray, m.Tri(p), world);
    }
  }

  lemma CrossingPlaced(r: Ray, t: Triangle, world: World)
    requires world.Value().rot.Rotation()
    ensures RayDet(InModel(r, world), t) == RayDet(r, Moved(t, world.Value()))
    ensures RayDet(r, Moved(t, world.Value())) != 0.0 ==>
              CrossingOf(InModel(r, world), t) == CrossingOf(r, Moved(t, world.Value()))
  {
    hide RayDet, CrossingOf, Matrix3.Rotation, Moved;
    if world.Set? {
      hide InModel;
      CrossingInWorld(r, t, world.matrix);
    } else {
      Unmoved(t);
    }
  }

  // The face holds the crossing of its triangle where it stands in the world.
  ghost predicate MeetsPlaced(q: Query, m: Mesh, world: World, f: Face)
    requires m.Valid()
  {
    f.id < |m.faces| && Meets(q, Moved(m.Tri(f.id), world.Value()), f)
  }

  lemma MeetsInWorld(q: Query, m: Mesh, world: World, p: nat)
    requires m.Valid() && world.Value().rot.Rotation() && Takes(q.(ray := InModel(q.ray, world)), m, p)
    ensures MeetsPlaced(q, m, world, FaceAt(q.(ray := InModel(q.ray, world)), m, p))
  {
    hide Meets, InModel, Matrix3.Rotation, World.Value, RayHits, CrossingOf, FaceAt, Moved, Takes;
    SameFace(q, m, world, p);
    CrossingMeets(q, Moved(m.Tri(p), world.Value()), p);
  }

  lemma CrossingMeets(q: Query, t: Triangle, p: nat)
    requires RayHits(q.ray, q.culling, t) && CrossingOf(q.ray, t).distance >= 0.0
    requires q.bounded ==> CrossingOf(q.ray, t).distance < q.maxDist
    ensures var c := CrossingOf(q.ray, t); Meets(q, t, Face(p, c.distance, c.u, c.v))
  {
    CrossingSolves(q.ray, t);
    hide RayDet, CrossingOf, Along, At;
  }

  ghost predicate PlacedFace(q: Query, m: Mesh, world: World, p: nat, f: Face)
    requires m.Valid()
  {
    TakesPlaced(q, m, world, p) &&
    var c := CrossingOf(q.ray, Moved(m.Tri(p), world.Value()));
    f == Face(p, c.distance, c.u, c.v)
  }

  lemma SameFace(q: Query, m: Mesh, world: World, p: nat)
    requires m.Valid() && world.Value().rot.Rotation() && Takes(q.(ray := InModel(q.ray, world)), m, p)
    ensures PlacedFace(q, m, world, p, FaceAt(q.(ray := InModel(q.ray, world)), m, p))
  {
    hide RayDet, CrossingOf, Matrix3.Rotation, Moved, InModel, World.Value;
    CrossingPlaced(q.ray, m.Tri(p), world);
  }

  // Any crossing of the placed triangle is the one the face holds.
  lemma OnlyCrossingPlaced(q: Query, m: Mesh, world: World, p: nat, c: Crossing)
    requires m.Valid() && world.Value().rot.Rotation() && Takes(q.(ray := InModel(q.ray, world)), m, p)
    requires Solves(q.ray, Moved(m.Tri(p), world.Value()), c)
    ensures FaceAt(q.(ray := InModel(q.ray, world)), m, p) == Face(p, c.distance, c.u, c.v)
  {
    hide CrossingOf, InModel, Moved, Matrix3.Rotation, World.Value, RayDet, Solves, FaceAt, Takes;
    SameFace(q, m, world, p);
    SolutionIsCrossing(q.ray, Moved(m.Tri(p), world.Value()), c);
  }

  lemma Unmoved(t: Triangle)
    ensures Moved(t, IDENTITY) == t
  {
    IdentityApplies(t.v0);
    IdentityApplies(t.v1);
    IdentityApplies(t.v2);
    hide Rigid.Apply;
  }
}
