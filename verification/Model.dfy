// A collision model from its triangles to the answers of its queries.
module Model {
  import opened RealArithmetic
  import opened Geometry
  import opened BoxTree
  import opened TreeBounds
  import opened TreeShapes
  import opened TreeBuild
  import opened TreeLayout
  import opened TreeFlattening
  import AabbCollider
  import ObbCollider
  import ObbTriangles
  import SeparatingAxes
  import RigidTransforms
  import PlanesCollider
  import SphereCollider
  import SphereScan
  import SphereBuilt
  import SphereCoherence
  import SphereTriangle
  import RayCollider
  import opened Collider
  import opened VolumeCollider
  import RayScan
  import RayTests
  import TreeCollider
  import PairScan
  import WorldTransforms

  class OpcodeModel {
    var mNoLeaf: bool
    const leafTree: AABBCollisionTree
    const noLeafTree: AABBNoLeafTree

    constructor ()
      ensures fresh(leafTree) && fresh(noLeafTree)
    {
      mNoLeaf := false;
      leafTree := new AABBCollisionTree();
      noLeafTree := new AABBNoLeafTree();
    }

    // The flattened tree in use holds t, whose leaves are the triangles 0 to N - 1, each once.
    ghost predicate Represents(m: Mesh, t: Tree)
      reads this, leafTree, leafTree.mNodes, noLeafTree, noLeafTree.mNodes
    {
      && Covers(t, m) && multiset(Prims(t)) == multiset(Upto(|m.faces|))
      && (if mNoLeaf then noLeafTree.Data().Holds(noLeafTree.mBase, t) else leafTree.Data().Holds(leafTree.mBase, t))
    }

    // Builds the generic tree and flattens it at the given address.
    method Build(mesh: Mesh, rules: Rules, noLeaf: bool, base: nat) returns (ok: bool, ghost t: Tree)
      requires mesh.Valid() && Finite(mesh) && |mesh.faces| <= 0x8000_0000 && base % 2 == 0
      requires noLeaf ==> |mesh.faces| != 1
      modifies this, leafTree, noLeafTree
      ensures ok == (|mesh.faces| > 0 && rules.complete && (rules.Known() || |mesh.faces| == 1))
      ensures ok ==> mNoLeaf == noLeaf && Represents(mesh, t) && Tight(t, mesh)
    {
      hide Finite, Mesh.Valid, Complete, TreeOf, SmallPrims, Covers, Prims, AABBTreeNode.Is, WellBuilt, Tight, Single,
           Slots, Upto;
      t := Leaf(NO_BOX, 0);
      if mesh.faces == [] {
        return false, t;
      }
      if !rules.complete {
        return false, t;
      }
      var source := new AABBTree();
      var builder := new Builder(mesh, 0, rules, |mesh.faces|);
      ghost var s;
      ok, s := source.Build(builder);
      ghost var n, indices := |mesh.faces|, source.mIndices[..];
      WholeSlice(source, mesh, n, s);
      SmallIndices(indices, n);
      TipAlone(s);
      mNoLeaf := noLeaf;
      ghost var written;
      if mNoLeaf {
        ok, written := noLeafTree.Build(source, base, s, mesh, n);
      } else {
        ok, written := leafTree.Build(source, base, s, mesh, n);
      }
      if ok {
        RootPrims(s, mesh, indices);
        RootTight(s, mesh, indices);
        t := TreeOf(s, mesh, indices);
      }
    }

    // ---- queries through the model: whichever layout it has, the answer is the linear scan over
    // the triangles 0 to N - 1

    method CollideBox(query: AabbCollider.BoxQuery, box: Box, ghost t: Tree)
      requires Represents(query.volume.mesh, t)
      requires query.volume.mFlags.firstContact || !query.volume.mFlags.temporalCoherence
      requires forall p <- query.volume.mTouchedPrimitives :: p < |query.volume.mesh.faces|
      modifies query, query.volume
      ensures ModelAnswers(query.volume.mesh, old(query.volume.mFlags), query.volume.mTouchedPrimitives,
                           AabbCollider.TouchesBox(box, query.volume.mesh))
    {
      hide Covers, Prims, Accepted, AabbCollider.Hits, ModelAnswers, AabbCollider.Inside;
      ModelMesh(query.volume.mesh, t);
      ghost var flags, cache := query.volume.mFlags, query.CacheNow();
      ghost var hit := AabbCollider.TouchesBox(box, query.volume.mesh);
      TouchedAreLeaves(query.volume.mesh, t, query.volume.mTouchedPrimitives);
      AabbCollider.AnswerIsRight(Prims(t), query.volume.mesh, box, flags, cache);
      if mNoLeaf {
        query.CollideNoLeaf(box, noLeafTree.Data(), t);
      } else {
        query.Collide(box, leafTree.Data(), t);
      }
      AnswersOfModel(query.volume.mesh, t, flags, query.volume.mTouchedPrimitives, hit);
    }

    // An oriented box among rigid world matrices: the triangles that share a point with it in the world.
    method CollideOrientedBox(query: ObbCollider.ObbQuery, box: RigidTransforms.Rigid, extents: Point,
                              worldb: WorldTransforms.World, worldm: WorldTransforms.World, ghost t: Tree)
      requires Represents(query.volume.mesh, t) && query.volume.mesh.Valid()
      requires forall p <- query.volume.mTouchedPrimitives :: p < |query.volume.mesh.faces|
      requires box.rot.Rotation() && worldb.Value().rot.Rotation() && worldm.Value().rot.Rotation()
      requires SeparatingAxes.NonNegative(extents)
      modifies query, query.volume
      ensures ModelAnswers(query.volume.mesh, old(query.volume.mFlags), query.volume.mTouchedPrimitives,
                           ObbTriangles.MeetingInWorld(box, extents, worldb.Value(), worldm.Value(), query.volume.mesh))
    {
      hide Covers, Prims, Accepted, ModelAnswers, Answers, ObbCollider.Answer, ObbTriangles.MeetingInWorld,
           RigidTransforms.Matrix3.Rotation, SeparatingAxes.NonNegative;
      ghost var m := query.volume.mesh;
      TouchedAreLeaves(m, t, query.volume.mTouchedPrimitives);
      ghost var hit := ObbTriangles.MeetingInWorld(box, extents, worldb.Value(), worldm.Value(), m);
      ghost var flags := query.volume.mFlags;
      ObbCollider.AnswerIsRight(Prims(t), flags, query.volume.mTouchedPrimitives, hit);
      if mNoLeaf {
        query.CollideNoLeaf(box, extents, worldb, worldm, noLeafTree.Data(), t);
      } else {
        query.Collide(box, extents, worldb, worldm, leafTree.Data(), t);
      }
      AnswersOfModel(m, t, flags, query.volume.mTouchedPrimitives, hit);
    }

    method CollidePlanes(query: PlanesCollider.PlanesQuery, planes: seq<PlanesCollider.Plane>,
                         world: WorldTransforms.World,
                         ghost t: Tree)
      requires Represents(query.volume.mesh, t) && 0 < |planes| < 32
      requires forall p <- query.volume.mTouchedPrimitives :: p < |query.volume.mesh.faces|
      modifies query, query.volume
      ensures ModelAnswers(query.volume.mesh, old(query.volume.mFlags), query.volume.mTouchedPrimitives,
                           PlanesCollider.Kept(PlanesCollider.InModel(planes, world), query.volume.mesh))
    {
      hide Covers, Prims, Accepted, PlanesCollider.Keeps, PlanesCollider.InModel, ModelAnswers, Answers;
      ModelMesh(query.volume.mesh, t);
      ghost var flags := query.volume.mFlags;
      TouchedAreLeaves(query.volume.mesh, t, query.volume.mTouchedPrimitives);
      if mNoLeaf {
        var ok := query.CollideNoLeaf(planes, world, noLeafTree.Data(), t);
      } else {
        var ok := query.Collide(planes, world, leafTree.Data(), t);
      }
      AnswersOfModel(query.volume.mesh, t, flags, query.volume.mTouchedPrimitives,
                     PlanesCollider.Kept(PlanesCollider.InModel(planes, world), query.volume.mesh));
    }

    // A sphere, on any mesh: each triangle with area is reported once if it touches the sphere in the
    // world and never otherwise; one without area at most once, and only if it touches. On a mesh that
    // its tight tree answers in full, all that touch are reported, each once. For the first contact,
    // coherent or not, one is reported, which touches, whenever a triangle with area does.
    method CollideSphere(query: SphereCollider.SphereQuery, center: Point, radius: real,
                         worlds: WorldTransforms.World, worldm: WorldTransforms.World, ghost t: Tree)
      requires Represents(query.volume.mesh, t)
      requires forall p <- query.volume.mTouchedPrimitives :: p < |query.volume.mesh.faces|
      requires query.volume.mFlags.firstContact || !query.volume.mFlags.temporalCoherence
      requires worldm.Value().rot.Rotation()
      modifies query, query.volume
      ensures if old(query.volume.mFlags).firstContact
              then SphereFirst(query.volume.mesh, query.volume.mTouchedPrimitives,
                               worldm.Value(), worlds.Value().Apply(center), radius)
              else SphereScans(query.volume.mesh, t, !mNoLeaf, query.volume.mTouchedPrimitives,
                               worldm.Value(), worlds.Value().Apply(center), radius)
    {
      hide Covers, Prims, Accepted, SphereScan.Reports, SphereScan.Near, SphereScans, SphereFirst,
           SphereCoherence.FirstAnswer, SphereCoherence.Reused;
      hide RigidTransforms.Matrix3.Rotation, RigidTransforms.Rigid.Apply, RigidTransforms.Inverse,
           WorldTransforms.World.Value;
      ModelMesh(query.volume.mesh, t);
      TouchedAreLeaves(query.volume.mesh, t, query.volume.mTouchedPrimitives);
      ghost var s := SphereCoherence.Sphere(SphereCollider.CenterInModel(center, worlds, worldm), radius);
      ghost var flags, cache := query.volume.mFlags, query.CacheNow();
      if mNoLeaf {
        query.CollideNoLeaf(center, radius, worlds, worldm, noLeafTree.Data(), t);
      } else {
        query.Collide(center, radius, worlds, worldm, leafTree.Data(), t);
      }
      if flags.firstContact {
        SphereCoherence.FirstIsRight(t, query.volume.mesh, !mNoLeaf, query.sqrt, s, flags, cache);
        FirstOfModel(query.volume.mesh, t, query.volume.mTouchedPrimitives, worldm.Value(),
                     worlds.Value().Apply(center), radius);
      } else {
        SphereOfModel(query.volume.mesh, t, !mNoLeaf, worldm.Value(), worlds.Value().Apply(center), radius);
      }
    }

    // A ray or segment in the world, for all contacts and without a cache: one face per triangle met.
    method CollideRay(query: RayCollider.RayQuery, ray: RayTests.Ray, world: WorldTransforms.World, ghost t: Tree)
      returns (ghost hit: seq<nat>)
      requires query.hasDestination && !query.mClosestHit && !query.mFlags.firstContact
      requires Represents(query.mesh, t) && query.mesh.Valid()
      requires world.Value().rot.Rotation()
      modifies query
      ensures RayScans(query.Asked(), query.mesh, query.mStabbedFaces, hit, ray, world)
    {
      hide Covers, Prims, Accepted, RayScan.Takes, RayScan.TakesPlaced, RayScan.Scan, RayScan.InModel, RayScans;
      hide RigidTransforms.Matrix3.Rotation, RigidTransforms.Rigid.Apply, WorldTransforms.World.Value;
      hide RayScan.AllMeet, RayScan.FaceAt, Tight;
      if mNoLeaf {
        var updated := query.CollideNoLeaf(ray, world, noLeafTree.Data(), RayCollider.None, t);
      } else {
        var updated := query.Collide(ray, world, leafTree.Data(), RayCollider.None, t);
      }
      hit := RayScan.Taken(query.Asked(), query.mesh, Prims(t));
      RayOfModel(query.Asked(), query.mesh, t, ray, world);
    }

    // The same for the nearest hit: one face, of a triangle that is met in the world, and no triangle
    // met there is crossed nearer; or none, when no triangle is met.
    method CollideRayClosest(query: RayCollider.RayQuery, ray: RayTests.Ray, world: WorldTransforms.World,
                             ghost t: Tree)
      requires query.hasDestination && query.mClosestHit && !query.mFlags.firstContact
      requires Represents(query.mesh, t) && query.mesh.Valid()
      requires world.Value().rot.Rotation()
      modifies query
      ensures ClosestInWorld(query.Asked().(ray := ray), query.mesh, query.mStabbedFaces, world)
    {
      hide Covers, Prims, Accepted, RayScan.Takes, RayScan.TakesPlaced, RayScan.Scan, RayScan.InModel;
      hide RigidTransforms.Matrix3.Rotation, RigidTransforms.Rigid.Apply, WorldTransforms.World.Value;
      hide RayScan.Nearest, ClosestInWorld, RayScan.AllMeet, RayScan.FaceAt;
      if mNoLeaf {
        var updated := query.CollideNoLeaf(ray, world, noLeafTree.Data(), RayCollider.None, t);
      } else {
        var updated := query.Collide(ray, world, leafTree.Data(), RayCollider.None, t);
      }
      ghost var q := query.Asked();
      ghost var i := RayScan.ScanKeepsNearest(q, query.mesh, RayScan.Result(false, []), Prims(t));
      AllOnce(query.mesh, t);
      NearestPlaced(q, query.mesh, Prims(t), query.mStabbedFaces, i, ray, world);
    }

    // Two models with the same layout, for all contacts: each accepted pair of triangles once.
    method CollidePair(query: TreeCollider.TreeQuery, other: OpcodeModel, ghost a: Tree, ghost b: Tree,
                       world0: WorldTransforms.World, world1: WorldTransforms.World) returns (ok: bool)
      requires Represents(query.mesh0, a) && other.Represents(query.mesh1, b) && !query.mFlags.firstContact
      requires query.Placed(world0, world1)
      requires mNoLeaf == other.mNoLeaf ==>
                 if mNoLeaf then query.SoundNoLeaf(a, b, world0, world1) else query.Sound(a, b, world0, world1)
      modifies query
      ensures ok == (mNoLeaf == other.mNoLeaf)
      ensures ok ==> PairsAll(query.mPairs, query.AcceptBetween(world0, world1))
    {
      hide Covers, Prims, Accepted, PairScan.Pairs, TreeCollider.TreeQuery.Sound, TreeCollider.TreeQuery.SoundNoLeaf;
      hide TreeCollider.TreeQuery.Placed, TreeCollider.TreeQuery.AcceptBetween, PairsAll;
      if mNoLeaf != other.mNoLeaf {
        return false;
      }
      ghost var accept := query.AcceptBetween(world0, world1);
      if mNoLeaf {
        query.CollideNoLeaf(noLeafTree.Data(), other.noLeafTree.Data(), a, b, world0, world1, null);
      } else {
        query.Collide(leafTree.Data(), other.leafTree.Data(), a, b, world0, world1, null);
      }
      ok := true;
      InMeshes(query, world0, world1);
      PairsOfModels(query.mesh0, query.mesh1, a, b, accept, query.mPairs);
    }
  }

  // Exactly the accepted indices below n, each once.
  ghost predicate ScansAll(n: nat, found: seq<nat>, accept: nat -> bool) {
    forall p: nat :: multiset(found)[p] == if p < n && accept(p) then 1 else 0
  }

  // In first-contact mode at most one index, which is accepted, and one if any index below N is;
  // otherwise exactly the accepted ones, each once.
  ghost predicate ModelAnswers(m: Mesh, flags: Flags, found: seq<nat>, accept: nat -> bool) {
    if flags.firstContact then
      && |found| <= 1 && (forall p <- found :: p < |m.faces| && accept(p))
      && (found == [] ==> forall p: nat :: p < |m.faces| ==> !accept(p))
    else ScansAll(|m.faces|, found, accept)
  }

  lemma AnswersOfModel(m: Mesh, t: Tree, flags: Flags, found: seq<nat>, accept: nat -> bool)
    requires multiset(Prims(t)) == multiset(Upto(|m.faces|)) && Answers(flags, Prims(t), accept, found)
    ensures ModelAnswers(m, flags, found, accept)
  {
    hide ScansAll;
    AllOnce(m, t);
    SphereBuilt.IndexedLeaves(t, m);
    ScanOfModel(m, t, accept);
  }

  ghost function TouchingPlaced(m: Mesh, world: RigidTransforms.Rigid, center: Point, radius2: real): nat -> bool
    requires m.Valid()
  {
    (p: nat) => p < |m.faces| && SphereCollider.TouchesPlaced(m.Tri(p), world, center, radius2)
  }

  ghost predicate SphereScans(m: Mesh, t: Tree, boxed: bool, found: seq<nat>, world: RigidTransforms.Rigid,
                              center: Point, radius: real)
    requires m.Valid()
  {
    var touching := TouchingPlaced(m, world, center, Sq(radius));
    && (forall p: nat | SphereScan.Solid(m, p) :: multiset(found)[p] == if touching(p) then 1 else 0)
    && (forall p: nat :: multiset(found)[p] <= 1)
    && (Sq(radius) <= FLT_MAX ==> forall p <- found :: touching(p))
    && (SphereScan.AllSolid(m) ==> ScansAll(|m.faces|, found, touching))
    && (Sq(radius) <= FLT_MAX && Tight(t, m) && SphereBuilt.Answered(t, m, boxed) ==>
          ScansAll(|m.faces|, found, touching))
  }

  ghost function RayTaken(q: RayScan.Query, m: Mesh, world: WorldTransforms.World): nat -> bool
    requires m.Valid()
  {
    (p: nat) => RayScan.TakesPlaced(q, m, world, p)
  }

  // One face for each triangle the ray meets where it stands in the world, in the order of hit, and
  // its distance and coordinates are those of the point in the world.
  ghost predicate RayScans(q: RayScan.Query, m: Mesh, faces: seq<RayScan.Face>, hit: seq<nat>,
                           ray: RayTests.Ray, world: WorldTransforms.World)
    requires m.Valid()
  {
    && q.ray == RayScan.InModel(ray, world)
    && RayScan.FacesOf(q, m, faces, hit) && ScansAll(|m.faces|, hit, RayTaken(q.(ray := ray), m, world))
    && forall i :: 0 <= i < |faces| ==>
         faces[i].id == hit[i] && RayScan.MeetsPlaced(q.(ray := ray), m, world, faces[i])
  }

  lemma FacesPlaced(q: RayScan.Query, m: Mesh, faces: seq<RayScan.Face>, hit: seq<nat>,
                    ray: RayTests.Ray, world: WorldTransforms.World)
    requires m.Valid() && q.ray == RayScan.InModel(ray, world) && world.Value().rot.Rotation()
    requires RayScan.FacesOf(q, m, faces, hit)
    ensures forall i :: 0 <= i < |faces| ==>
              faces[i].id == hit[i] && RayScan.MeetsPlaced(q.(ray := ray), m, world, faces[i])
  {
    hide RayScan.Takes, RayScan.InModel, RayScan.FaceAt, RayScan.MeetsPlaced;
    hide RigidTransforms.Matrix3.Rotation, WorldTransforms.World.Value;
    var q' := q.(ray := ray);
    assert q == q'.(ray := RayScan.InModel(q'.ray, world));
    forall i | 0 <= i < |faces|
      ensures faces[i].id == hit[i] && RayScan.MeetsPlaced(q', m, world, faces[i])
    {
      RayScan.FaceIsCrossing(q, m, hit[i]);
      RayScan.MeetsInWorld(q', m, world, hit[i]);
    }
  }

  lemma RayOfModel(q: RayScan.Query, m: Mesh, t: Tree, ray: RayTests.Ray, world: WorldTransforms.World)
    requires m.Valid() && q.ray == RayScan.InModel(ray, world) && world.Value().rot.Rotation()
    requires q.keep && !q.closest && !q.first && multiset(Prims(t)) == multiset(Upto(|m.faces|))
    ensures RayScans(q, m, RayScan.Scan(q, m, RayScan.Result(false, []), Prims(t)).faces,
                     RayScan.Taken(q, m, Prims(t)), ray, world)
  {
    hide Prims, Accepted, RayScan.Takes, RayScan.TakesPlaced, RayScan.Scan, RayScan.InModel, ScansAll;
    hide RigidTransforms.Matrix3.Rotation, RigidTransforms.Rigid.Apply, WorldTransforms.World.Value;
    hide RayScan.FacesOf, RayScan.FaceAt, RayScan.MeetsPlaced;
    var hit, start := RayScan.Taken(q, m, Prims(t)), RayScan.Result(false, []);
    var faces := RayScan.ScanReports(q, m, start, Prims(t));
    assert RayScan.Scan(q, m, start, Prims(t)).faces == faces;
    TakenPlaced(q, m, Prims(t), ray, world);
    ScanOfModel(m, t, RayTaken(q.(ray := ray), m, world));
    FacesPlaced(q, m, faces, hit, ray, world);
  }

  // At most one face, of a triangle the ray meets in the world; and whenever it meets one, there is a
  // face, and the crossing is not nearer.
  ghost predicate ClosestInWorld(q: RayScan.Query, m: Mesh, faces: seq<RayScan.Face>, world: WorldTransforms.World)
    requires m.Valid()
  {
    && |faces| <= 1
    && (forall f <- faces :: RayTaken(q, m, world)(f.id) && RayScan.MeetsPlaced(q, m, world, f))
    && (forall p: nat | RayTaken(q, m, world)(p) ::
          faces != [] &&
          forall c: RayTests.Crossing | CrossesPlaced(q, m, world, p, c) :: faces[0].distance <= c.distance)
  }

  ghost predicate CrossesPlaced(q: RayScan.Query, m: Mesh, world: WorldTransforms.World, p: nat, c: RayTests.Crossing)
    requires m.Valid()
  {
    p < |m.faces| && RayTests.Solves(q.ray, WorldTransforms.Moved(m.Tri(p), world.Value()), c)
  }

  lemma NearestPlaced(q: RayScan.Query, m: Mesh, l: seq<nat>, faces: seq<RayScan.Face>, i: nat,
                      ray: RayTests.Ray, world: WorldTransforms.World)
    requires m.Valid() && q.ray == RayScan.InModel(ray, world) && world.Value().rot.Rotation()
    requires forall p: nat :: multiset(l)[p] == if p < |m.faces| then 1 else 0
    requires RayScan.Taken(q, m, l) == [] ==> faces == []
    requires RayScan.Taken(q, m, l) != [] ==> |faces| == 1 && RayScan.Nearest(q, m, faces[0], l, i)
    ensures ClosestInWorld(q.(ray := ray), m, faces, world)
  {
    hide RayScan.Takes, RayScan.TakesPlaced, RayScan.InModel, RayScan.FaceAt, RayScan.MeetsPlaced, RayTests.Solves;
    hide RigidTransforms.Matrix3.Rotation, WorldTransforms.World.Value, WorldTransforms.Moved;
    var q' := q.(ray := ray);
    assert q == q'.(ray := RayScan.InModel(q'.ray, world));
    forall p: nat | RayTaken(q', m, world)(p)
      ensures faces != [] &&
              forall c: RayTests.Crossing | CrossesPlaced(q', m, world, p, c) :: faces[0].distance <= c.distance
    {
      RayScan.TakesInWorld(q', m, world, p);
      TakenIsMember(q, m, l, p);
      forall c: RayTests.Crossing | CrossesPlaced(q', m, world, p, c) ensures faces[0].distance <= c.distance {
        RayScan.OnlyCrossingPlaced(q', m, world, p, c);
        var j :| 0 <= j < |l| && l[j] == p;
      }
    }
    if faces != [] {
      RayScan.NearestIsLeast(q, m, faces[0], l, i);
      RayScan.TakesInWorld(q', m, world, l[i]);
      RayScan.MeetsInWorld(q', m, world, l[i]);
    }
  }

  lemma TakenIsMember(q: RayScan.Query, m: Mesh, l: seq<nat>, p: nat)
    requires m.Valid() && RayScan.Takes(q, m, p)
    requires forall k: nat :: multiset(l)[k] == if k < |m.faces| then 1 else 0
    ensures p < |m.faces| && p in l && RayScan.Taken(q, m, l) != []
  {
    assert p in multiset(l);
    assert p in RayScan.Taken(q, m, l);
  }

  lemma TakenPlaced(q: RayScan.Query, m: Mesh, l: seq<nat>, ray: RayTests.Ray, world: WorldTransforms.World)
    requires m.Valid() && q.ray == RayScan.InModel(ray, world) && world.Value().rot.Rotation()
    ensures RayScan.Taken(q, m, l) == Accepted(l, RayTaken(q.(ray := ray), m, world))
  {
    hide RayScan.Takes, RayScan.TakesPlaced, RayScan.InModel, Accepted;
    hide RigidTransforms.Matrix3.Rotation, WorldTransforms.World.Value;
    var q' := q.(ray := ray);
    assert q == q'.(ray := RayScan.InModel(q'.ray, world));
    forall p <- l ensures RayScan.Takes(q, m, p) == RayScan.TakesPlaced(q', m, world, p) {
      RayScan.TakesInWorld(q', m, world, p);
    }
    AcceptedSame(l, (p: nat) => RayScan.Takes(q, m, p), RayTaken(q', m, world));
  }

  lemma {:induction false} UptoCounts(n: nat, p: nat)
    ensures multiset(Upto(n))[p] == if p < n then 1 else 0
  {
    if n > 0 {
      UptoCounts(n - 1, p);
    }
  }

  lemma SmallIndices(indices: seq<nat>, n: nat)
    requires multiset(indices) == multiset(Upto(n)) && n <= 0x8000_0000
    ensures SmallPrims(indices)
  {
    forall k | 0 <= k < |indices| ensures indices[k] < 0x8000_0000 {
      assert indices[k] in multiset(indices);
      UptoCounts(n, indices[k]);
    }
  }

  lemma TipAlone(s: Shape)
    ensures s.Tip? ==> (Single(s) <==> s.count == 1)
  {
  }

  lemma ModelMesh(m: Mesh, t: Tree)
    requires Covers(t, m)
    ensures m.Valid()
  {
  }

  lemma TouchedAreLeaves(m: Mesh, t: Tree, touched: seq<nat>)
    requires multiset(Prims(t)) == multiset(Upto(|m.faces|)) && forall p <- touched :: p < |m.faces|
    ensures forall p <- touched :: p in Prims(t)
  {
    forall p <- touched ensures p in Prims(t) {
      UptoCounts(|m.faces|, p);
      assert p in multiset(Prims(t));
    }
  }

  lemma ScanOfModel(m: Mesh, t: Tree, accept: nat -> bool)
    requires multiset(Prims(t)) == multiset(Upto(|m.faces|))
    ensures ScansAll(|m.faces|, Accepted(Prims(t), accept), accept)
  {
    forall p: nat ensures multiset(Accepted(Prims(t), accept))[p] == if p < |m.faces| && accept(p) then 1 else 0 {
      AcceptedCounts(Prims(t), accept, p);
      UptoCounts(|m.faces|, p);
    }
  }

  lemma SphereOfModel(m: Mesh, t: Tree, boxed: bool, world: RigidTransforms.Rigid, center: Point, radius: real)
    requires Covers(t, m) && multiset(Prims(t)) == multiset(Upto(|m.faces|)) && world.rot.Rotation() && m.Valid()
    ensures SphereScans(m, t, boxed,
                        SphereScan.Reports(t, RigidTransforms.Inverse(world).Apply(center), Sq(radius), m, boxed),
                        world, center, radius)
  {
    hide Covers, Prims, SphereScan.Reports, SphereTriangle.Touches, SphereCollider.TouchesPlaced, Sq, Tight,
         SphereTriangle.Degenerate, SphereBuilt.Answered;
    hide RigidTransforms.Matrix3.Rotation, RigidTransforms.Rigid.Apply, RigidTransforms.Inverse;
    var c, radius2 := RigidTransforms.Inverse(world).Apply(center), Sq(radius);
    var found: seq<nat> := SphereScan.Reports(t, c, radius2, m, boxed);
    forall p: nat
      ensures SphereScan.Touching(c, radius2, m)(p) == TouchingPlaced(m, world, center, radius2)(p)
      ensures multiset(found)[p] <= if p < |m.faces| then 1 else 0
      ensures SphereScan.Solid(m, p) ==> multiset(found)[p] == if SphereScan.Touching(c, radius2, m)(p) then 1 else 0
      ensures radius2 <= FLT_MAX && multiset(found)[p] > 0 ==> SphereScan.Touching(c, radius2, m)(p)
    {
      if p < |m.faces| {
        SphereCollider.TouchingInWorld(m.Tri(p), world, center, radius2);
      }
      UptoCounts(|m.faces|, p);
      SphereScan.ReportCounts(t, c, radius2, m, boxed, p);
    }
    assert forall p <- found :: p in multiset(found);
    if radius2 <= FLT_MAX && Tight(t, m) && SphereBuilt.Answered(t, m, boxed) {
      SphereOfTight(m, t, boxed, world, center, radius);
    }
  }

  // At most one triangle, which touches the sphere in the world, and one whenever a triangle with area
  // touches it.
  ghost predicate SphereFirst(m: Mesh, found: seq<nat>, world: RigidTransforms.Rigid, center: Point, radius: real)
    requires m.Valid()
  {
    var touching := TouchingPlaced(m, world, center, Sq(radius));
    && |found| <= 1 && (Sq(radius) <= FLT_MAX ==> forall p <- found :: touching(p))
    && (found == [] ==> forall p: nat | SphereScan.Solid(m, p) :: !touching(p))
  }

  lemma FirstOfModel(m: Mesh, t: Tree, found: seq<nat>, world: RigidTransforms.Rigid, center: Point, radius: real)
    requires Covers(t, m) && multiset(Prims(t)) == multiset(Upto(|m.faces|)) && world.rot.Rotation() && m.Valid()
    requires var s := SphereCoherence.Sphere(RigidTransforms.Inverse(world).Apply(center), radius);
             SphereCoherence.FirstAnswer(t, m, s, found)
    ensures SphereFirst(m, found, world, center, radius)
  {
    hide Covers, Prims, SphereTriangle.Touches, SphereCollider.TouchesPlaced, Sq, SphereTriangle.Degenerate;
    hide RigidTransforms.Matrix3.Rotation, RigidTransforms.Rigid.Apply, RigidTransforms.Inverse;
    var c := RigidTransforms.Inverse(world).Apply(center);
    AllOnce(m, t);
    SphereBuilt.IndexedLeaves(t, m);
    forall p: nat
      ensures SphereScan.Touching(c, Sq(radius), m)(p) == TouchingPlaced(m, world, center, Sq(radius))(p)
      ensures p in Prims(t) <==> p < |m.faces|
    {
      if p < |m.faces| {
        SphereCollider.TouchingInWorld(m.Tri(p), world, center, Sq(radius));
      }
    }
  }

  lemma SphereOfTight(m: Mesh, t: Tree, boxed: bool, world: RigidTransforms.Rigid, center: Point, radius: real)
    requires Tight(t, m) && multiset(Prims(t)) == multiset(Upto(|m.faces|)) && world.rot.Rotation()
    requires m.Valid() && SphereBuilt.Answered(t, m, boxed) && Sq(radius) <= FLT_MAX
    ensures var c := RigidTransforms.Inverse(world).Apply(center);
            ScansAll(|m.faces|, SphereScan.Reports(t, c, Sq(radius), m, boxed),
                     TouchingPlaced(m, world, center, Sq(radius)))
  {
    hide Tight, Prims, SphereScan.Reports, SphereTriangle.Touches, SphereCollider.TouchesPlaced, SphereScan.RightFor,
         Sq;
    hide RigidTransforms.Matrix3.Rotation, RigidTransforms.Rigid.Apply, RigidTransforms.Inverse, SphereBuilt.Answered;
    var c := RigidTransforms.Inverse(world).Apply(center);
    AllOnce(m, t);
    SphereBuilt.RightExactlyWhenAnswered(t, m, boxed);
    RightHere(t, m, boxed, c, radius);
    var here, placed := SphereScan.Touching(c, Sq(radius), m), TouchingPlaced(m, world, center, Sq(radius));
    forall p <- Prims(t) ensures here(p) == placed(p) {
      if p < |m.faces| {
        SphereCollider.TouchingInWorld(m.Tri(p), world, center, Sq(radius));
      }
    }
    AcceptedSame(Prims(t), here, placed);
    ScanOfModel(m, t, placed);
  }

  lemma AllOnce(m: Mesh, t: Tree)
    requires multiset(Prims(t)) == multiset(Upto(|m.faces|))
    ensures SphereBuilt.Indexes(t, m) && SphereBuilt.EachOnce(Prims(t))
  {
    forall p: nat ensures multiset(Prims(t))[p] == if p < |m.faces| then 1 else 0 {
      UptoCounts(|m.faces|, p);
    }
  }

  lemma RightHere(t: Tree, m: Mesh, boxed: bool, center: Point, radius: real)
    requires m.Valid() && SphereScan.RightOn(t, m, boxed) && Sq(radius) <= FLT_MAX
    ensures SphereScan.Reports(t, center, Sq(radius), m, boxed) ==
            Accepted(Prims(t), SphereScan.Touching(center, Sq(radius), m))
  {
    hide SphereScan.Reports, Accepted, SphereScan.Touching, Sq;
    assert SphereScan.RightFor(t, m, boxed, center, radius);
  }

  // Exactly the accepted pairs, each once.
  ghost predicate PairsAll(found: seq<(nat, nat)>, accept: PairScan.PairTest) {
    forall i: nat, j: nat :: multiset(found)[(i, j)] == if accept(i, j) then 1 else 0
  }

  lemma InMeshes(query: TreeCollider.TreeQuery, world0: WorldTransforms.World, world1: WorldTransforms.World)
    requires query.Placed(world0, world1)
    ensures forall i: nat, j: nat ::
              query.AcceptBetween(world0, world1)(i, j) ==> i < |query.mesh0.faces| && j < |query.mesh1.faces|
  {
    hide WorldTransforms.Between, RigidTransforms.Matrix3.Rotation, WorldTransforms.World.Value;
  }

  lemma PairsOfModels(m0: Mesh, m1: Mesh, a: Tree, b: Tree, accept: PairScan.PairTest, found: seq<(nat, nat)>)
    requires multiset(Prims(a)) == multiset(Upto(|m0.faces|)) && multiset(Prims(b)) == multiset(Upto(|m1.faces|))
    requires forall i: nat, j: nat :: accept(i, j) ==> i < |m0.faces| && j < |m1.faces|
    requires multiset(found) == PairScan.Pairs(Prims(a), Prims(b), accept)
    ensures PairsAll(found, accept)
  {
    hide PairScan.Pairs, Prims;
    forall i: nat, j: nat ensures multiset(found)[(i, j)] == if accept(i, j) then 1 else 0 {
      UptoCounts(|m0.faces|, i);
      UptoCounts(|m1.faces|, j);
      if accept(i, j) {
        PairScan.EachPairOnce(Prims(a), Prims(b), accept, i, j);
      } else {
        PairScan.PairsCount(Prims(a), Prims(b), accept, (i, j));
      }
    }
  }
}
