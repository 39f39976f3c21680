# Dominators and collision trees

This project models two parts of the engine's external code and proves what they promise.

**Dominator analysis** (`Externals/SPIRV-Cross/spirv_cfg.cpp`). A recursive depth-first traversal numbers the blocks of a
function in post-order, drops edges to blocks still being visited and adds implied edges to merge blocks; one pass in reverse
post-order then fills the table of immediate dominators, and several queries climb that table. The structured control flow
involved is that of section 2.11 of the SPIR-V Specification. `Blocks`, `Dominance` and `DepthFirst` hold the graph theory over
values; `ControlFlowGraph` holds the classes with the code's own fields, loops and recursion; `ControlFlowQueries` says what the
answers of the queries mean for the ways through the function.

**Bounding-volume trees** (`Externals/OPCODE`). An index list is partitioned in place into a binary tree with boxes, the tree is
flattened into an array of tagged words, and queries by ray, segment, box, planes, sphere or another tree prune it. The point
of each query is that it agrees with a linear scan of the triangles, and that is what is proved of it: `Model` puts the pieces
together from the triangles of a mesh to the answers.

| part | modules |
|---|---|
| dominators | `Blocks`, `Dominance`, `DepthFirst`, `ControlFlowGraph`, `ControlFlowQueries` |
| arithmetic and geometry | `RealArithmetic`, `Geometry`, `RigidTransforms`, `WorldTransforms` |
| trees, words and scans | `BoxTree`, `FlatTree`, `Collider`, `VolumeCollider` |
| building | `TreeBounds`, `IndexLists`, `TreeShapes`, `TreeBuild`, `SplitMeasures` |
| flattening and saving | `TreeLayout`, `TreeFlattening`, `NodeBytes`, `ModelStream` |
| spheres | `PointTriangleDistance`, `SphereTriangle`, `SphereScan`, `SphereBuilt`, `SphereCoherence`, `SphereCollider` |
| rays and segments | `RayTests`, `RayBoxExact`, `RayScan`, `RayCollider` |
| planes | `ClipMasks`, `PlanesCollider` |
| triangles and boxes | `TriangleBox`, `TriangleBoxTest`, `HalfPlanes`, `HalfPlaneTriples`, `SeparatingAxes`, `TriangleBoxExact` |
| axis-aligned boxes | `AabbCollider` |
| oriented boxes | `OrientedBoxes`, `BoxBoxTest`, `ObbTriangles`, `ObbCollider` |
| tree against tree | `PairScan`, `PairPruning`, `TreeCollider` |
| whole models | `Model` |

`dafny verify dfyconfig.toml` checks everything.

## How the code is represented

- Floats are `real`. `GREATER` and the comparisons on bit patterns are ordinary comparisons. `flt_min` is the most negative float,
  as `Externals/OPCODE/OPC_AABB.h:73-78` uses it.
- Classes keep the fields of the source, and methods change them in place. Arrays that the code fills in place are arrays. A result
  container is a sequence. The flag word is a record of its four bits.
- A node word is a number; a leaf is a number with its lowest bit set, an address any even number. Leaf words wrap at 32 bits and
  relocation at 64 bits.
- A query takes the flattened array and, as a ghost, the tree that following its words finds (`Holds`). `Accepted` is the linear
  scan of the leaves; `Report` keeps all of it, or its first in first-contact mode.
- A triangle meets a box when nine conditions on its barycentric coordinates can be met together, six faces and three edges. That
  the thirteen axes decide this exactly is proved through half-planes: three at a time are enough, and three that cannot be met
  yield one of the axes.
- One cache belongs to each collider: its touched list is the collider's list.
- The triangle-triangle test is a parameter. The source's own test snaps small plane distances to zero and so accepts triangles
  that share no point; what whole queries ask of a test is only that the prune tests keep every pair it accepts (`Sound`,
  `SoundNoLeaf`). Tests that accept only triangles with a common point, like the exact one, always meet this.

Where the code does less than its comments say, the model follows the code and says exactly when it does what it promises:

- `SphereTriOverlap` misses every triangle of zero area for any radius whose square is below the largest float
  (`RightExactlyOnArea`); `RightWithLeaves`, `RightWithoutLeaves` and `RightExactlyWhenAnswered` say on which meshes whole queries
  of built models are right all the same.
- A coherent sphere query for all contacts squares a difference of radii that may be negative, and so reuses lists of spheres
  smaller than the new one (`KeepsTrustExactlyWhenGuarded`); around the origin a fresh cache never recovers (`FreshCacheSticks`).
- Planes are moved into the space of a model as the same planes only if their normals have unit length or their offsets are zero
  (`RightExactlyOnUnit`), and what they keep changes for all others that have a normal or a positive offset
  (`KeepsExactlyWhenMovable`).
- Loading counts the checksum among the bytes of the nodes (`CutShort`).

The early-accept bounds of a coherent box query come from the box before it is fattened, which loses nothing.

## Model

| member | source | states |
|---|---|---|
| ControlFlowGraph.Cfg.constructor | Externals/SPIRV-Cross/spirv_cfg.cpp:33-39 | A constructed graph is fully built: the traversal finished, and the table of immediate dominators covers exactly the numbered blocks and is exact for each |
| ControlFlowGraph.Cfg.PostOrderVisit | Externals/SPIRV-Cross/spirv_cfg.cpp:94-208 | One call of the recursive visit keeps the traversal invariant, answers false exactly for a block on the visiting stack, gives a block it enters its number after everything below it, and touches no edge that ends in an older block; it terminates because every new call marks another block |
| ControlFlowGraph.Cfg.VisitTargets | Externals/SPIRV-Cross/spirv_cfg.cpp:119-202 | Visiting the targets of a block leaves every terminator and loop-merge target either recorded as a successor or on the stack, and every merge target settled; the merge block of a loop is entered first, the jump targets in order, the merge block of a selection last |
| ControlFlowGraph.Cfg.VisitJumpTargets | Externals/SPIRV-Cross/spirv_cfg.cpp:122-151 | The same for the targets of the terminator |
| ControlFlowGraph.Cfg.VisitCases | Externals/SPIRV-Cross/spirv_cfg.cpp:137-144 | The same for the literal cases of a switch |
| ControlFlowGraph.Cfg.VisitSelectionMerge | Externals/SPIRV-Cross/spirv_cfg.cpp:153-205 | A merge block that is not on the stack gets the implied edge from its header always after a switch with a lone case; otherwise, unless the header jumps there, its edge is the first or the second recorded; and it gets none only when two were recorded before |
| ControlFlowGraph.Cfg.VisitAndRecord | Externals/SPIRV-Cross/spirv_cfg.cpp:119-128 | A target that is entered gets an edge, one that is being visited gets none |
| ControlFlowGraph.Cfg.AddEdge | Externals/SPIRV-Cross/spirv_cfg.cpp:219-228 | Both edge maps gain the edge once |
| ControlFlowGraph.Cfg.BuildPostOrderVisitOrder | Externals/SPIRV-Cross/spirv_cfg.cpp:210-217 | The numbered blocks are exactly those reachable through terminator and merge targets, numbered 1 to n with the entry last; every recorded edge goes from a higher to a lower number; every numbered block but the entry has a recorded predecessor; every dropped terminator edge leads to the block itself or to one that was on the stack when it was discovered |
| DepthFirst.DiscoverKeeps | Externals/SPIRV-Cross/spirv_cfg.cpp:94-113 | Marking a block as being visited keeps the traversal invariant |
| DepthFirst.AddBranchKeeps | Externals/SPIRV-Cross/spirv_cfg.cpp:219-228 | Recording an edge from the block on top of the stack to a finished block keeps it |
| DepthFirst.FinishKeeps | Externals/SPIRV-Cross/spirv_cfg.cpp:204-207 | Numbering the block on top of the stack keeps it |
| DepthFirst.DoneTraversed | Externals/SPIRV-Cross/spirv_cfg.cpp:94-217 | A traversal that has come back to an empty stack has all the promised properties, the implied edges and the order of visits among them |
| DepthFirst.RuleSettlesMerge | Externals/SPIRV-Cross/spirv_cfg.cpp:160-201 | Adding the implied edge just when the three rules of the code say so settles the merge block |
| DepthFirst.DoneMerge | Externals/SPIRV-Cross/spirv_cfg.cpp:153-205 | In the finished graph an implied edge comes after the edges of blocks that came before its header and ahead of those of blocks numbered above it, at most one before it unless there is a lone case; without it two edges of blocks before the header come first |
| DepthFirst.DoneOrdered | Externals/SPIRV-Cross/spirv_cfg.cpp:110-202 | A block entered from another one, and all entered from it in turn, are numbered above all earlier targets of that other block that were not being visited |
| ControlFlowQueries.InsideAboveMerge | Externals/SPIRV-Cross/spirv_cfg.cpp:110-117 | Blocks entered through a loop header but not through its merge block are numbered above the merge block |
| ControlFlowQueries.MergeIsHoisted | Externals/SPIRV-Cross/spirv_cfg.cpp:153-202 | After a switch with a lone case, and whenever a merge block has fewer than two predecessors or is a jump target of its header, its immediate dominator dominates the header: nothing inside the construct does |
| DepthFirst.DroppedEdges | Externals/SPIRV-Cross/spirv_cfg.cpp:79-108 | An edge to a terminator or loop-merge target is missing from the record exactly when its target was on the stack when the source was discovered, and leads to a larger number exactly when that target is another block |
| ControlFlowGraph.Cfg.FindCommonDominator | Externals/SPIRV-Cross/spirv_cfg.cpp:41-51 | Climbing the partial table ends at the nearest common dominator of both blocks, as long as the table is exact above them; it terminates and never climbs past the entry, so the assertion in the loop holds |
| ControlFlowGraph.Cfg.BuildImmediateDominators | Externals/SPIRV-Cross/spirv_cfg.cpp:53-77 | One pass in reverse post-order leaves every entry exact |
| ControlFlowGraph.Cfg.ResolveBlock | Externals/SPIRV-Cross/spirv_cfg.cpp:61-75 | Combining the predecessors of a block, all of them numbered higher and already in the table, gives its exact entry |
| Dominance.ClimbKeepsCommonDominators | Externals/SPIRV-Cross/spirv_cfg.cpp:41-51 | Replacing the lower of two blocks by its immediate dominator changes no common dominator |
| Dominance.ExactCombinesPredecessors | Externals/SPIRV-Cross/spirv_cfg.cpp:61-75 | The nearest common dominator of all predecessors of a block is its immediate dominator |
| Dominance.ExactIsImmediate | Externals/SPIRV-Cross/spirv_cfg.cpp:53-77 | An exact entry strictly dominates its block and is dominated by every other strict dominator |
| ControlFlowGraph.ImmediateDominatorsAreExact | Externals/SPIRV-Cross/spirv_cfg.hpp:53-60 | The table maps the entry to itself and every other reachable block to its immediate dominator in the recorded graph, and answers 0 exactly for the unreachable blocks |
| Dominance.RetreatingEdgesKeepDominators | Externals/SPIRV-Cross/spirv_cfg.cpp:79-108 | Adding any edges whose targets dominate their sources changes no dominance |
| ControlFlowGraph.DroppedEdgesLoseNothing | Externals/SPIRV-Cross/spirv_cfg.cpp:79-151 | On a reducible function, where each dropped edge leads to a dominator of its source, the recorded graph and the graph with the dropped edges put back have the same dominators |
| Dominance.NearestCommonDominatorUnique | Externals/SPIRV-Cross/spirv_cfg.cpp:361-377 | Two blocks that are nearest common dominators of the same set are equal, so neither order nor repetition matters to a builder |
| ControlFlowGraph.DominatorBuilder.AddBlock | Externals/SPIRV-Cross/spirv_cfg.cpp:361-377 | The builder holds the nearest common dominator of all reachable blocks among the set added so far, and 0 as long as there is none |
| ControlFlowGraph.DominatorBuilder.LiftContinueBlockDominator | Externals/SPIRV-Cross/spirv_cfg.cpp:379-429 | The entry replaces the dominator exactly when the dominator ends in a jump to one of its proper ancestors in the traversal; the result still dominates every reachable block added |
| ControlFlowGraph.Cfg.PredecessorsDominator | Externals/SPIRV-Cross/spirv_cfg.cpp:297-303 | A fresh builder fed with all predecessors of a block yields its entry in the table, or 0 when it has none |
| ControlFlowGraph.CombinedIsImmediate | Externals/SPIRV-Cross/spirv_cfg.cpp:297-303 | What a builder holds after all predecessors of a block were added is the exact immediate dominator of the block |
| ControlFlowGraph.Cfg.NodeTerminatesControlFlowInSubGraph | Externals/SPIRV-Cross/spirv_cfg.cpp:280-354 | The loop terminates and answers what the climb along the exact immediate dominators answers, which the next rows say is about the ways out of the header |
| ControlFlowGraph.TerminatesImpliesDominates | Externals/SPIRV-Cross/spirv_cfg.cpp:280-354 | A positive answer means that every way from the entry to the block goes through the given header |
| ControlFlowQueries.TerminatesIsPassed | Externals/SPIRV-Cross/spirv_cfg.cpp:280-354 | After a positive answer every way along terminator targets from the header to a block without targets goes through the block, or takes an exit of the loop that the query ignores, when the constructs around the block merge on every way |
| ControlFlowQueries.TerminatesPostDominates | Externals/SPIRV-Cross/spirv_cfg.cpp:280-354 | For a header that is no loop header there is no such exit: every way out goes through the block |
| ControlFlowQueries.ExitGoesStraight | Externals/SPIRV-Cross/spirv_cfg.cpp:305-331 | A way out that takes an ignored exit goes from there straight to the merge block of the loop |
| ControlFlowQueries.TerminatesExactly | Externals/SPIRV-Cross/spirv_cfg.cpp:280-354 | On reachable blocks the answer is positive if and only if the header dominates the block and every block between them in the dominator tree may be continued to from its immediate dominator |
| ControlFlowQueries.AllowedWithoutLoop | Externals/SPIRV-Cross/spirv_cfg.cpp:333-351 | Below a header that is no loop header that is so exactly for the merge block of the immediate dominator and for the only target of its direct jump |
| ControlFlowQueries.ExecutionIsBranchless | Externals/SPIRV-Cross/spirv_cross.cpp:1769-1782 | For runs that end, the answer is whether a run of direct jumps between blocks without constructs leads from the one block to the other |
| ControlFlowQueries.WayOutFollowsRun | Externals/SPIRV-Cross/spirv_cross.cpp:1769-1782 | Control cannot leave such a run |
| ControlFlowGraph.Cfg.FindLoopDominator | Externals/SPIRV-Cross/spirv_cfg.cpp:230-278 | The loop terminates and finds the loop header that a climb from merge block to header, and otherwise to the first predecessor, ends at |
| ControlFlowGraph.Cfg.ChooseHeader | Externals/SPIRV-Cross/spirv_cfg.cpp:240-268 | Of the predecessors, the first whose own construct ends at the block is chosen, or the first of all |
| ControlFlowGraph.LoopHeaderReaches | Externals/SPIRV-Cross/spirv_cfg.cpp:230-278 | What is found is the NoDominator id or a loop header that reaches the block over recorded edges without starting at its own merge block |
| ControlFlowQueries.LoopDominatorFound | Externals/SPIRV-Cross/spirv_cfg.cpp:230-278 | A block that a loop header strictly dominates and that no recorded walk from the merge block of the loop leads to finds a loop header, and one the given header dominates |
| ControlFlowQueries.MergeBlockFollowsHeader | Externals/SPIRV-Cross/spirv_cfg.cpp:240-262 | A block at which the construct of one predecessor ends finds what that predecessor finds, and never that predecessor itself |
| SphereTriangle.LeastDistance | Externals/OPCODE/OPC_SphereTriOverlap.h:24-234 | The search over the seven regions ends at the least value of the quadratic form over all points of the triangle, with its coordinates, or leaves the initial maximum when the determinant is zero |
| SphereTriangle.LeastNear | Externals/OPCODE/OPC_SphereTriOverlap.h:24-120 | The same for the regions next to corner 0 and the interior |
| SphereTriangle.LeastBeyond | Externals/OPCODE/OPC_SphereTriOverlap.h:121-234 | The same for the regions beyond the far edge |
| PointTriangleDistance.FormIsDistance | Externals/OPCODE/OPC_SphereTriOverlap.h:9-18 | The form at (u, v) is the squared distance from the center to that point of the triangle |
| PointTriangleDistance.LeastInside | Externals/OPCODE/OPC_SphereTriOverlap.h:112-118 | The stationary point, when inside, is least |
| PointTriangleDistance.LeastOnEdge0 | Externals/OPCODE/OPC_SphereTriOverlap.h:97-101 | The foot on edge 0 is least under the sign conditions of its region |
| PointTriangleDistance.LeastOnEdge2 | Externals/OPCODE/OPC_SphereTriOverlap.h:207-231 | The foot on the edge between corners 1 and 2 is least under the sign conditions of its region |
| PointTriangleDistance.LeastAtCorner1 | Externals/OPCODE/OPC_SphereTriOverlap.h:132-138 | Corner 1 is least under the sign conditions of its region |
| SphereTriangle.LeastDecidesTouch | Externals/OPCODE/OPC_SphereTriOverlap.h:235 | The least value is not negative, so taking its absolute value changes nothing, and it is below the squared radius exactly when some point of the triangle is closer than the radius |
| SphereTriangle.DetSign | Externals/OPCODE/OPC_SphereTriOverlap.h:19 | The determinant is not negative, so taking its absolute value changes nothing, and it is zero exactly for triangles without area |
| SphereTriangle.RightExactlyOnArea | Externals/OPCODE/OPC_SphereTriOverlap.h:4-236 | The answer is right for every sphere of squared radius up to the largest float if and only if the triangle has nonzero area: degenerate triangles are missed even by spheres around one of their corners |
| SphereCollider.SphereQuery.SphereTriOverlap | Externals/OPCODE/OPC_SphereTriOverlap.h:4-236 | For triangles with area the answer is whether some point is strictly closer than the radius |
| SphereCollider.SphereQuery.SphereAABBOverlap | Externals/OPCODE/OPC_SphereAABBOverlap.h:11-138 | The answer, early exits included, is whether the squared gap between center and box is within the squared radius |
| SphereScan.BoxGapBelow | Externals/OPCODE/OPC_SphereAABBOverlap.h:11-138 | No point of a box is nearer to the center than the gap |
| SphereScan.GapIsDistance | Externals/OPCODE/OPC_SphereAABBOverlap.h:11-138 | Some point of the box is exactly that near: the test accepts just the boxes that hold a point within the radius |
| SphereCollider.SphereQuery.SphereContainsBox | Externals/OPCODE/OPC_SphereCollider.cpp:433-470 | The answer is whether all eight corners are strictly inside |
| SphereScan.CornersHoldBox | Externals/OPCODE/OPC_SphereCollider.cpp:433-470 | A sphere that holds the corners of a box holds all of it |
| SphereScan.OutOfReach | Externals/OPCODE/OPC_SphereCollider.cpp:487-491 | A subtree whose box is out of reach has no triangle that touches the sphere |
| SphereScan.AllWithin | Externals/OPCODE/OPC_SphereCollider.cpp:472-480 | Every triangle of a subtree whose box the sphere holds touches it |
| SphereScan.SolidExactly | Externals/OPCODE/OPC_SphereCollider.cpp:487-508 | On every mesh the triangles with area that are reported are exactly those that touch the sphere, in leaf order, in both layouts |
| SphereScan.OnlyTouching | Externals/OPCODE/OPC_SphereCollider.cpp:487-508 | With or without area, nothing is reported that does not touch the sphere, for every squared radius up to the largest float |
| SphereScan.NoneTwice | Externals/OPCODE/OPC_SphereCollider.cpp:487-508 | Nothing is reported more often than it occurs |
| SphereScan.ScanOnSolid | Externals/OPCODE/OPC_SphereCollider.cpp:487-508 | On meshes without degenerate triangles the report is the linear scan for touching triangles, for every radius |
| SphereScan.FirstContact | Externals/OPCODE/OPC_SphereCollider.cpp:487-508 | A first-contact query reports at most one triangle, which touches the sphere, and reports one whenever a triangle with area touches |
| SphereScan.RightExactlyWhenSure | Externals/OPCODE/OPC_SphereCollider.cpp:472-508 | A given tree is answered as by the scan for every sphere if and only if each degenerate triangle is below a box that is a single point (its own leaf box counts only where leaf nodes are kept) |
| TreeShapes.BuiltIsTight | Externals/OPCODE/OPC_AABBTree.cpp:324-387 | Every box of a built tree is the tight box of the triangles below it |
| SphereBuilt.RightExactlyWhenAnswered | Externals/OPCODE/OPC_SphereCollider.cpp:472-508 | A tree with tight boxes is answered as by the scan for every sphere if and only if each triangle has area or has a kept box above it that is only for triangles that are the same single point |
| SphereBuilt.RightWithLeaves | Externals/OPCODE/OPC_SphereCollider.cpp:472-508 | So a built model with leaf nodes is right for every sphere if and only if each degenerate triangle of its mesh is a single point |
| SphereBuilt.RightWithoutLeaves | Externals/OPCODE/OPC_SphereCollider.cpp:536-578 | A built model without leaf nodes, in whose mesh no two triangles are the same point, is right for every sphere if and only if no triangle is degenerate |
| SphereBuilt.LeavesOnlyHelp | Externals/OPCODE/OPC_SphereCollider.cpp:472-578 | Where the layout without leaf nodes is right for every sphere, so is the layout with them |
| SphereCollider.SphereQuery.CollideNode | Externals/OPCODE/OPC_SphereCollider.cpp:487-508 | The traversal adds what is reported of the tree, or the first of it, and sets the contact bit accordingly, on every mesh |
| SphereCollider.SphereQuery.CollideNoLeafNode | Externals/OPCODE/OPC_SphereCollider.cpp:552-578 | The same for the layout without leaves |
| SphereCollider.SphereQuery.InitQuery | Externals/OPCODE/OPC_SphereCollider.cpp:153-241 | The center goes through the world matrix of the sphere and back through that of the model; in coherent modes a first contact that still holds or the list of a reused fat sphere settles the query, and otherwise the fat sphere is stored |
| SphereCollider.TouchingInWorld | Externals/OPCODE/OPC_SphereCollider.cpp:161-175 | A triangle touches the moved sphere in the space of the model just when it does where both stand in the world |
| SphereCollider.SphereQuery.Collide | Externals/OPCODE/OPC_SphereCollider.cpp:255-277 | A whole query, in every mode, leaves the list, the cached sphere and the contact bits that the specification of one query gives for the tree |
| SphereCollider.SphereQuery.CollideNoLeaf | Externals/OPCODE/OPC_SphereCollider.cpp:290-312 | The same for the layout without leaves |
| SphereCoherence.HeldExactlyWhenSmaller | Externals/OPCODE/OPC_SphereCollider.cpp:204-209 | Where the cached list is reused, the cached sphere holds the new one if and only if the radius of the new one is not larger |
| SphereCoherence.ReportGrows | Externals/OPCODE/OPC_SphereCollider.cpp:487-578 | What is reported of a tree for a sphere is reported for every sphere that holds it, degenerate triangles included |
| SphereCoherence.QueryKeepsTrust | Externals/OPCODE/OPC_SphereCollider.cpp:204-232 | A guarded coherent query keeps the list equal to what the cached sphere reports, and leaves all that the plain query would report and only what touches the cached sphere |
| SphereCoherence.RunsAreSandwiched | Externals/OPCODE/OPC_SphereCollider.cpp:204-232 | From a fresh cache, this holds after every query of every run in which reused lists are for spheres no smaller than the new one; coefficients are at least 1 and fat squared radii at most the largest float |
| SphereCoherence.KeepsTrustExactlyWhenGuarded | Externals/OPCODE/OPC_SphereCollider.cpp:204-232 | For given spheres the query keeps that for every tree and mesh if and only if it is guarded: reuse only when the new radius is not larger |
| SphereCoherence.FreshCacheSticks | Externals/OPCODE/OPC_SphereCollider.h:23-31 | A fresh cache queried with spheres around the origin of the model is never filled: every query of the run after the first report that is not empty repeats that report |
| SphereCoherence.FirstIsRight | Externals/OPCODE/OPC_SphereCollider.cpp:180-203 | In first-contact mode, whatever was touched before, at most one triangle is reported, which touches the sphere, and one whenever a triangle with area touches it |
| SphereCoherence.CachedSphere | Externals/OPCODE/OPC_SphereCollider.cpp:218-230 | The cached sphere is the one before, or has the new center and the new squared radius times the coefficient |
| RayTests.CrossingSolves | Externals/OPCODE/OPC_RayTriOverlap.h:19-92 | The stored distance and coordinates solve the crossing equation of line and plane |
| RayTests.SolutionIsCrossing | Externals/OPCODE/OPC_RayTriOverlap.h:19-92 | They are its only solution |
| RayTests.HitsExactlyWhenSolved | Externals/OPCODE/OPC_RayTriOverlap.h:19-92 | The test accepts exactly the triangles it does not cull whose plane the line crosses inside the triangle |
| RayTests.CornersInAnyOrder | Externals/OPCODE/OPC_RayTriOverlap.h:32-92 | Starting at another corner changes no answer; without culling neither does turning the corners around; with culling exactly one of the two senses of a triangle that is hit is hit, the one whose normal points against the ray |
| RayCollider.RayQuery.RayTriOverlap | Externals/OPCODE/OPC_RayTriOverlap.h:19-92 | The culled and the unculled form both answer that question and leave the crossing in the scratch face |
| RayTests.SegmentTestNeverRejects | Externals/OPCODE/OPC_RayAABBOverlap.h:17-43 | The separating axes of segment and box never reject a box with a point of the segment in it |
| RayTests.RayTestNeverRejects | Externals/OPCODE/OPC_RayAABBOverlap.h:54-92 | Those of ray and box never reject a box with a point of the ray in it |
| RayBoxExact.SegmentTestIsExact | Externals/OPCODE/OPC_RayAABBOverlap.h:17-43 | The segment test accepts exactly the boxes that hold a point of the segment |
| RayBoxExact.RayTestIsExact | Externals/OPCODE/OPC_RayAABBOverlap.h:54-92 | The ray test accepts exactly the boxes that hold a point of the ray |
| RayBoxExact.PartsOverlap | Externals/OPCODE/OPC_RayAABBOverlap.h:31-41 | A mixed axis lets the parts of the line between the two pairs of sides overlap |
| RayBoxExact.AllOverlap | Externals/OPCODE/OPC_RayAABBOverlap.h:17-92 | Parts that overlap pairwise and ahead of a point all overlap there |
| RayCollider.RayQuery.SegmentAABBOverlap | Externals/OPCODE/OPC_RayAABBOverlap.h:17-43 | The code with its precomputed half segment evaluates those axes |
| RayCollider.RayQuery.RayAABBOverlap | Externals/OPCODE/OPC_RayAABBOverlap.h:54-92 | The code with its precomputed absolute direction evaluates those axes |
| RayCollider.RayQuery.HandleContact | Externals/OPCODE/OPC_RayCollider.cpp:101-121 | The destination and the flags after a contact are those of one step of the scan: appended, or replacing the stored face when nearer |
| RayCollider.RayQuery.StabPrim | Externals/OPCODE/OPC_RayCollider.cpp:145-162 | A leaf of a segment query is one step of the scan, and counts a hit ahead of the origin at any distance |
| RayCollider.RayQuery.UnboundedStabPrim | Externals/OPCODE/OPC_RayCollider.cpp:183-196 | A leaf of a ray query is one step of the scan, and counts its hit |
| RayCollider.RayQuery.Stab | Externals/OPCODE/OPC_RayCollider.cpp:611-630 | The traversal of a segment leaves flags and destination as the linear scan over the leaves does, in every mode, and counts at least the triangles taken and at most all that are hit |
| RayCollider.RayQuery.StabNoLeaf | Externals/OPCODE/OPC_RayCollider.cpp:672-694 | The same for the layout without leaves, hence the same sequence of faces |
| RayCollider.RayQuery.UnboundedStab | Externals/OPCODE/OPC_RayCollider.cpp:766-785 | The same for a ray, together with the number of intersections |
| RayCollider.RayQuery.UnboundedStabNoLeaf | Externals/OPCODE/OPC_RayCollider.cpp:827-849 | The same for the layout without leaves |
| RayCollider.RayInModel | Externals/OPCODE/OPC_RayCollider.cpp:310-325 | The ray is moved back through the world matrix of the model: the origin by the inverse, the direction by the transposed rotation |
| RayScan.CrossingInWorld | Externals/OPCODE/OPC_RayCollider.cpp:310-325 | The moved ray crosses a triangle at the same distance and coordinates as the ray crosses it where it stands in the world |
| RayCollider.RayQuery.InitQuery | Externals/OPCODE/OPC_RayCollider.cpp:300-391 | The ray is the one in the space of the model and the precomputed data belong to it; the cached face is tried first in coherent first-contact mode, and its hit is the whole answer |
| RayCollider.RayQuery.Collide | Externals/OPCODE/OPC_RayCollider.cpp:414-442 | A whole query ends as the linear scan from an empty destination, or with the cached face alone, and the cache then names the first stored face; every stored face is a crossing of its triangle |
| RayScan.ScanReports | Externals/OPCODE/OPC_RayCollider.cpp:101-121 | Without closest-hit mode the destination gains one face for each triangle taken, in leaf order; in first-contact mode, with or without closest hit, exactly one if any triangle is taken |
| RayScan.FaceIsCrossing | Externals/OPCODE/OPC_RayCollider.cpp:101-121 | A stored face names its triangle, and its distance and coordinates solve the crossing equation inside the triangle, ahead of the origin and below the bound |
| RayScan.ScanMeets | Externals/OPCODE/OPC_RayCollider.cpp:101-121 | In every mode all faces a scan leaves are such crossings |
| RayScan.NearestIsLeast | Externals/OPCODE/OPC_RayCollider.cpp:101-121 | No crossing of a triangle that is hit is nearer than the face closest-hit mode leaves |
| RayScan.MeetsInWorld | Externals/OPCODE/OPC_RayCollider.cpp:310-325 | A stored face is where the ray in the world meets the triangle as it stands there |
| RayScan.ScanKeepsNearest | Externals/OPCODE/OPC_RayCollider.cpp:101-121 | In closest-hit mode with all contacts the destination ends empty when nothing is hit, and otherwise with one face, of the first among the nearest triangles hit |
| RayScan.ScanContact | Externals/OPCODE/OPC_RayCollider.cpp:101-121 | The contact bit says whether any triangle was taken |
| VolumeCollider.Volume.Dump | Externals/OPCODE/OPC_VolumeCollider.cpp:98-117 | Dumping a subtree appends all its primitives in leaf order, or only the first in first-contact mode |
| VolumeCollider.Volume.DumpNoLeaf | Externals/OPCODE/OPC_VolumeCollider.cpp:78-97 | The same for the layout without leaves |
| PlanesCollider.PlanesQuery.PlanesAABBOverlap | Externals/OPCODE/OPC_PlanesAABBOverlap.h:16-54 | The loop over the mask rejects exactly when an active plane has the box in front, and otherwise keeps exactly the active planes the box straddles |
| PlanesCollider.PlanesQuery.PlanesTriOverlap | Externals/OPCODE/OPC_PlanesTriOverlap.h:11-43 | The answer is whether every active plane has a corner of the triangle at nonpositive distance |
| PlanesCollider.Culled | Externals/OPCODE/OPC_PlanesAABBOverlap.h:16-54 | A box in front of one active plane holds no triangle the full set of planes keeps |
| PlanesCollider.MaskStaysSettled | Externals/OPCODE/OPC_PlanesCollider.cpp:359-391 | A plane that leaves the mask keeps every triangle of the subtree |
| PlanesCollider.AllKept | Externals/OPCODE/OPC_PlanesCollider.cpp:366-374 | With an empty mask every triangle of the subtree is kept by all planes |
| PlanesCollider.PlanesQuery.CollideNode | Externals/OPCODE/OPC_PlanesCollider.cpp:359-391 | The traversal with shrinking masks reports what testing each leaf against all planes accepts, dumped subtrees included |
| PlanesCollider.PlanesQuery.CollideNoLeafNode | Externals/OPCODE/OPC_PlanesCollider.cpp:446-481 | The same for the layout without leaves, where a leaf is tested against the mask of its parent |
| PlanesCollider.PlanesInModel | Externals/OPCODE/OPC_PlanesCollider.cpp:148-158 | Every plane is moved back through the world matrix of the model, if there is one |
| PlanesCollider.MovedDistance | Externals/OPCODE/OPC_Plane.h:105-117 | The moved plane measures the distance in the world with its offset scaled by the square of the normal |
| PlanesCollider.RightExactlyOnUnit | Externals/OPCODE/OPC_Plane.h:105-117 | So it is the same plane if and only if the normal has unit length or the offset is zero |
| PlanesCollider.KeepsExactlyWhenMovable | Externals/OPCODE/OPC_PlanesCollider.cpp:148-158 | A plane keeps every triangle in the space of the model just when it keeps it in the world if and only if there is no world matrix, its normal has unit length, its offset is zero, or its normal is zero and its offset negative: any other plane misjudges a triangle under every world matrix |
| PlanesCollider.KeptInWorld | Externals/OPCODE/OPC_PlanesCollider.cpp:148-158 | A list of such planes keeps a triangle in the space of the model just when it keeps it where it stands in the world |
| PlanesCollider.PlanesQuery.Collide | Externals/OPCODE/OPC_PlanesCollider.cpp:213-235 | A whole query with the planes in the space of the model reports what they keep, or the cached face when it is still kept in coherent first-contact mode |
| PlanesCollider.PlanesQuery.AnswerIsRight | Externals/OPCODE/OPC_PlanesCollider.cpp:164-195 | In first-contact mode, coherent or not, at most one triangle is reported, which all planes keep, and one if and only if some triangle is kept |
| PlanesCollider.BoxSides | Externals/OPCODE/OPC_PlanesAABBOverlap.h:16-54 | A plane culls exactly the boxes all of whose points are in front of it, and is dropped exactly for those none of whose points is |
| ClipMasks.AndWithPower | Externals/OPCODE/OPC_PlanesAABBOverlap.h:32-49 | Masking with a doubled one tests one bit |
| TriangleBoxTest.PlaneBoxOverlap | Externals/OPCODE/OPC_TriBoxOverlap.h:16-38 | The two extreme corners decide whether the plane meets the box |
| TriangleBoxTest.EdgeOverlap | Externals/OPCODE/OPC_TriBoxOverlap.h:41-153 | The three mixed axes of an edge, each judged by two corners |
| TriangleBoxTest.TriBoxOverlap | Externals/OPCODE/OPC_TriBoxOverlap.h:334-426 | The test answers whether the shadows of box and triangle meet on all three sides, the normal and the nine mixed axes |
| TriangleBox.OverlapMonotone | Externals/OPCODE/OPC_TriBoxOverlap.h:334-426 | On every axis a larger box keeps each overlap of a smaller box inside it |
| TriangleBox.NeverSeparatesTouching | Externals/OPCODE/OPC_TriBoxOverlap.h:334-426 | A triangle with a point in the box is never rejected, degenerate or not, with or without the mixed axes |
| HalfPlanes.AllMeet | Externals/OPCODE/OPC_TriBoxOverlap.h:159-166 | Half-planes any three of which have a common point all have one: the theorem that lets finitely many axes decide |
| HalfPlaneTriples.CompatibleMeet | Externals/OPCODE/OPC_TriBoxOverlap.h:159-166 | Three half-planes have a common point unless a combination of two, or the one combination of all three, rules it out |
| SeparatingAxes.CertificateSeparates | Externals/OPCODE/OPC_TriBoxOverlap.h:174-180 | A combination of box faces and triangle edges that cannot be met is an axis on which the shadows are disjoint |
| SeparatingAxes.EdgeBlocks | Externals/OPCODE/OPC_TriBoxOverlap.h:41-153 | Such an axis, if it is perpendicular to an edge and to a side of the box, is found by a mixed axis |
| SeparatingAxes.NormalBlocks | Externals/OPCODE/OPC_TriBoxOverlap.h:411-419 | Such an axis, if it is perpendicular to the triangle, is found by the normal |
| TriangleBoxExact.SidesMeet | Externals/OPCODE/OPC_TriBoxOverlap.h:334-426 | In an accepted triangle any three of the nine conditions, six faces and three edges, can be met together, whatever degenerates |
| TriangleBoxExact.AcceptedTouches | Externals/OPCODE/OPC_TriBoxOverlap.h:334-426 | Every accepted triangle has a point in the box |
| TriangleBoxExact.OverlapIsTouch | Externals/OPCODE/OPC_TriBoxOverlap.h:334-426 | The full test accepts a triangle, degenerate or not, if and only if some point of it is in the box |
| TriangleBox.ApartBoxesSeparate | Externals/OPCODE/OPC_BoxBoxOverlap.h:189-208 | A triangle inside a node box that misses the query box is rejected by the triangle test too |
| TriangleBox.ContainedOverlaps | Externals/OPCODE/OPC_AABBCollider.cpp:389-416 | A triangle inside a node box within the query box is accepted by the triangle test too |
| AabbCollider.BoxQuery.AABBAABBOverlap | Externals/OPCODE/OPC_BoxBoxOverlap.h:189-208 | The answer is whether the two boxes meet on every side |
| AabbCollider.BoxQuery.ContainedIsWithin | Externals/OPCODE/OPC_AABBCollider.cpp:389-406 | A node inside the bounds is inside the box the triangles are tested with, although the bounds come from the box before it was fattened |
| AabbCollider.BoxQuery.CollideNode | Externals/OPCODE/OPC_AABBCollider.cpp:423-444 | The traversal reports what the triangle test accepts of the leaves, in leaf order, or its first |
| AabbCollider.BoxQuery.CollideNoLeafNode | Externals/OPCODE/OPC_AABBCollider.cpp:488-512 | The same for the layout without leaves |
| AabbCollider.BoxQuery.InitQuery | Externals/OPCODE/OPC_AABBCollider.cpp:137-213 | What the cache alone settles, and otherwise which box is searched and cached, in all modes |
| AabbCollider.BoxQuery.Collide | Externals/OPCODE/OPC_AABBCollider.cpp:224-245 | A whole query leaves list, cached box and flags as the specification of one query says, in all modes |
| AabbCollider.BoxQuery.CollideNoLeaf | Externals/OPCODE/OPC_AABBCollider.cpp:256-277 | The same for the layout without leaves |
| AabbCollider.InsideIsWithin | Externals/OPCODE/OPC_Common.h:69-84 | The six comparisons of IsInside mean that one box lies within the other |
| AabbCollider.FattenedScales | Externals/OPCODE/OPC_AABBCollider.cpp:186-200 | The enlarged box is the box scaled from its center by the coefficient |
| AabbCollider.AnswerIsRight | Externals/OPCODE/OPC_AABBCollider.cpp:149-200 | Whatever the cache holds, a first-contact query, coherent or not, reports at most one triangle, which is hit, and one if and only if some triangle of the list is hit; a plain one reports the scan |
| AabbCollider.BoxesMeetExactly | Externals/OPCODE/OPC_BoxBoxOverlap.h:189-208 | The node test accepts exactly the boxes that share a point with the query box |
| AabbCollider.QueryKeepsTrust | Externals/OPCODE/OPC_AABBCollider.cpp:137-213 | One coherent query for all contacts keeps the list equal to what the cached box touches, and answers the query |
| AabbCollider.RunsAreSandwiched | Externals/OPCODE/OPC_AABBCollider.cpp:137-213 | After any run of coherent queries from a fresh cache the list contains everything the plain query would report for the last box, and only triangles that touch the cached box |
| AabbCollider.ReportedIsTouching | Externals/OPCODE/OPC_AABBCollider.cpp:423-444 | The plain query reports exactly the triangles of the list that have a point in the box |
| OrientedBoxes.NeverSeparatesTouching | Externals/OPCODE/OPC_BoxBoxOverlap.h:21-103 | For every right-handed rotation the fifteen axes, or the first six, never reject two boxes that share a point |
| BoxBoxTest.BoxBoxOverlap | Externals/OPCODE/OPC_BoxBoxOverlap.h:21-103 | The general form evaluates those axes |
| BoxBoxTest.CrossesFromParts | Externals/OPCODE/OPC_OBBCollider.cpp:214-226 | The nine sums that depend on the second box alone complete the mixed axes |
| ObbCollider.ObbQuery.Precompute | Externals/OPCODE/OPC_OBBCollider.cpp:157-226 | The two transforms between box and model undo each other and agree with the world matrices, and all precomputed values are those the fast tests rely on |
| ObbCollider.ObbQuery.BoxBoxOverlap | Externals/OPCODE/OPC_BoxBoxOverlap.h:106-186 | The precomputed form evaluates the same axes as the general form |
| ObbCollider.FormsAgree | Externals/OPCODE/OPC_BoxBoxOverlap.h:21-186 | The precomputed form and the general form with the oriented box at its own origin give the same answer |
| ObbCollider.TouchingNodesAreKept | Externals/OPCODE/OPC_BoxBoxOverlap.h:106-186 | A node that shares a point with the oriented box passes the precomputed form |
| ObbCollider.ObbQuery.OBBContainsBox | Externals/OPCODE/OPC_OBBCollider.cpp:427-487 | The answer is whether every point of the box, moved into the space of the oriented box, is inside its extents |
| ObbCollider.ObbQuery.TriBoxOverlap | Externals/OPCODE/OPC_TriBoxOverlap.h:261-331 | The test with the box at the origin answers for all thirteen axes |
| ObbCollider.ObbQuery.ObbPrim | Externals/OPCODE/OPC_OBBCollider.cpp:56-69 | A leaf is reported exactly if a point of its triangle, moved into the space of the box, is inside its extents |
| ObbTriangles.TestIsReach | Externals/OPCODE/OPC_OBBCollider.cpp:56-69 | The test of the moved corners is exact for the points of the triangle in its own space |
| ObbTriangles.WorldIsModel | Externals/OPCODE/OPC_OBBCollider.cpp:157-196 | Reaching the box in model space is sharing a point with it in the world |
| ObbTriangles.Missed | Externals/OPCODE/OPC_OBBCollider.cpp:504-521 | A node whose box shares no point with the oriented box holds no triangle that reaches it |
| ObbTriangles.AllInside | Externals/OPCODE/OPC_OBBCollider.cpp:489-496 | All triangles of a node inside the oriented box reach it |
| ObbCollider.ObbQuery.RejectedNode | Externals/OPCODE/OPC_OBBCollider.cpp:506-508 | A node rejected on all or on the first six axes holds no triangle that is hit |
| ObbCollider.ObbQuery.CollideNode | Externals/OPCODE/OPC_OBBCollider.cpp:504-521 | The traversal reports the triangles that reach the oriented box, in leaf order, or the first |
| ObbCollider.ObbQuery.CollideNoLeafNode | Externals/OPCODE/OPC_OBBCollider.cpp:560-580 | The same for the layout without leaves |
| ObbCollider.ObbQuery.InitQuery | Externals/OPCODE/OPC_OBBCollider.cpp:152-265 | All transforms and bounds are ready, and the query is settled exactly if the previous first contact is still one |
| ObbCollider.ObbQuery.Collide | Externals/OPCODE/OPC_OBBCollider.cpp:279-301 | A whole query reports exactly the triangles that share a point with the box where both stand in the world, in leaf order, or the first, or the previous first contact if it still holds |
| ObbCollider.ObbQuery.CollideNoLeaf | Externals/OPCODE/OPC_OBBCollider.cpp:315-337 | The same for the layout without leaves |
| ObbCollider.AnswerIsRight | Externals/OPCODE/OPC_OBBCollider.cpp:232-262 | In first-contact mode, coherent or not, at most one triangle is reported, which is hit, and one if and only if some triangle is |
| RigidTransforms.InvertPRMatrix | Externals/OPCODE/OPC_Matrix4x4.cpp:52-73 | Writing the entries one by one gives the transposed rotation and the translation turned back |
| RigidTransforms.InverseUndoes | Externals/OPCODE/OPC_Matrix4x4.cpp:52-73 | Which undoes the transform before and after it, on every point |
| WorldTransforms.ThenApplies | Externals/OPCODE/OPC_Matrix4x4.h:420-441 | The matrix product applies its factors one after the other |
| WorldTransforms.ThenRotates | Externals/OPCODE/OPC_Matrix4x4.h:420-441 | The product of two rotations is a right-handed rotation |
| WorldTransforms.BetweenWorlds | Externals/OPCODE/OPC_TreeCollider.cpp:255-273 | The two composed transforms are rotations with translations, undo each other, and lead from either object into the other as their world matrices say |
| PairPruning.MeetingBoxes | Externals/OPCODE/OPC_TreeCollider.cpp:569-575 | Boxes around two triangles that meet pass the box-box test |
| PairPruning.MeetingTriangleAndBox | Externals/OPCODE/OPC_TreeCollider.cpp:723-727 | A fetched triangle of the first tree passes the triangle-box test of every box around a triangle it meets |
| PairPruning.MeetingBoxAndTriangle | Externals/OPCODE/OPC_TreeCollider.cpp:751-755 | The same for a fetched triangle of the second tree |
| PairPruning.InvariantFormsAgree | Externals/OPCODE/OPC_TreeCollider.cpp:625-715 | A leaf test that ignores the order and the common rigid placement of its triangles gives one answer in its three uses |
| PairPruning.MeetIsInvariant | Externals/OPCODE/OPC_TreeCollider.cpp:625-715 | The exact test, whether two triangles share a point, is such a test |
| PairPruning.MeetIsInWorld | Externals/OPCODE/OPC_TreeCollider.cpp:255-273 | Its answer in the space of the first object is about the triangles as they stand in the world |
| TreeCollider.TreeQuery.MeetingIsSound | Externals/OPCODE/OPC_TreeCollider.cpp:569-916 | A leaf test that accepts only triangles with a common point is never pruned, whatever the settings, in both layouts |
| TreeCollider.TreeQuery.ExactIsSound | Externals/OPCODE/OPC_TreeCollider.cpp:569-916 | In particular the exact test meets all that whole queries ask for |
| TreeCollider.TreeQuery.PrimTest | Externals/OPCODE/OPC_TreeCollider.cpp:625-658 | Reports the pair exactly when it is due |
| TreeCollider.TreeQuery.PrimTestTriIndex | Externals/OPCODE/OPC_TreeCollider.cpp:666-686 | Reports the fetched leaf of the first tree with a leaf of the second exactly when that pair is due, if the forms of the leaf test agree |
| TreeCollider.TreeQuery.PrimTestIndexTri | Externals/OPCODE/OPC_TreeCollider.cpp:694-715 | The same for a leaf of the first tree with the fetched leaf of the second |
| TreeCollider.TreeQuery.NodesOverlap | Externals/OPCODE/OPC_TreeCollider.cpp:571-575 | If the box tests keep every two nodes with an accepted pair below them, no pair below two rejected nodes is due |
| TreeCollider.TreeQuery.CollideNodes | Externals/OPCODE/OPC_TreeCollider.cpp:569-611 | If the box tests never reject two nodes with an accepted pair below them, the pairs added are exactly those the leaf test accepts, with their multiplicity; in first-contact mode one of them if there are any |
| TreeCollider.TreeQuery.CollideTriBox | Externals/OPCODE/OPC_TreeCollider.cpp:723-743 | The same for the leaf fetched from the first tree, which is what is in place during the whole descent, against a branch of the second |
| TreeCollider.TreeQuery.CollideBoxTri | Externals/OPCODE/OPC_TreeCollider.cpp:751-771 | The same for the leaf fetched from the second tree against a branch of the first |
| TreeCollider.TreeQuery.CollideHalf | Externals/OPCODE/OPC_TreeCollider.cpp:812-860 | One child of the first node against both children of the second, fetching each leaf before it is used |
| TreeCollider.TreeQuery.CollideNoLeafNodes | Externals/OPCODE/OPC_TreeCollider.cpp:802-916 | Exactly the accepted pairs for two trees without leaves, if neither the box tests of inner nodes nor the triangle-box tests of fetched leaves reject one, and the three forms of the leaf test agree |
| TreeCollider.TreeQuery.InitQuery | Externals/OPCODE/OPC_TreeCollider.cpp:246-284 | Sets up the transforms between the two objects, the absolute matrix and an empty list |
| TreeCollider.TreeQuery.CheckTemporalCoherence | Externals/OPCODE/OPC_TreeCollider.cpp:293-307 | Answers true exactly in coherent first-contact mode when the cached pair is accepted, which is then the only pair |
| TreeCollider.TreeQuery.UpdateCache | Externals/OPCODE/OPC_TreeCollider.cpp:309-314 | Any contact is remembered by its first pair |
| TreeCollider.TreeQuery.Collide | Externals/OPCODE/OPC_TreeCollider.cpp:328-357 | A whole query of two trees with leaves: the accepted pairs, or one of them, or the cached pair alone while it is still accepted; the contact bit is right in all cases and the cache then holds the first pair reported, ready for the next query |
| TreeCollider.TreeQuery.CollideNoLeaf | Externals/OPCODE/OPC_TreeCollider.cpp:371-400 | The same for two trees without leaves |
| TreeCollider.LayoutsAgree | Externals/OPCODE/OPC_TreeCollider.cpp:569-916 | Queries of the same trees in either layout, both run for all contacts, report the same multiset of pairs |
| PairScan.PairsCount | Externals/OPCODE/OPC_TreeCollider.cpp:625-658 | A pair is due as often as its members occur in the two lists when it is accepted, and never otherwise |
| PairScan.EachPairOnce | Externals/OPCODE/OPC_TreeCollider.cpp:625-658 | Lists without repetition make every accepted pair due exactly once |
| PairScan.PairsHold | Externals/OPCODE/OPC_TreeCollider.cpp:625-658 | What is due is accepted and comes from the two lists, and everything of that kind is due |
| TreeBounds.ComputeGlobalBox | Externals/OPCODE/OPC_TreeBuilders.cpp:103-126 | The box encloses all triangles of the list and each of its six bounds is reached by a corner |
| TreeBounds.BoundsOfSameMembers | Externals/OPCODE/OPC_AABBTree.cpp:324-337 | It stays the tight box however the list is reorganised |
| TreeBounds.BoundsNest | Externals/OPCODE/OPC_TreeBuilders.cpp:103-126 | The tight box of a part of a list lies inside the tight box of the list |
| TreeBuild.AABBTreeNode.Split | Externals/OPCODE/OPC_AABBTree.cpp:94-124 | Only the order inside the slice changes, and the primitives above the middle of the box come first |
| IndexLists.DividedCounts | Externals/OPCODE/OPC_AABBTree.cpp:94-124 | The number of primitives moved to the front is the number above the middle |
| IndexLists.VarianceAxis | Externals/OPCODE/OPC_AABBTree.cpp:178-204 | The axis chosen is the first of greatest variance |
| IndexLists.SortAxes | Externals/OPCODE/OPC_AABBTree.cpp:246-262 | The three axes, longest extent first, equal ones in their order |
| SplitMeasures.SplittingIsCentroid | Externals/OPCODE/OPC_TreeBuilders.cpp:136-149 | The splitting value is the coordinate of the point with equal weights for the corners, and lies between the lowest and the highest of them |
| SplitMeasures.WhollyOnOneSide | Externals/OPCODE/OPC_AABBTree.cpp:94-124 | A triangle wholly above the middle of the box goes to the positive side, one that nowhere rises above it to the other |
| SplitMeasures.MeanIsLeast | Externals/OPCODE/OPC_AABBTree.cpp:178-190 | Around any value the squared differences add up to those around the mean and the square of the distance to it for each primitive |
| SplitMeasures.VarianceByPairs | Externals/OPCODE/OPC_AABBTree.cpp:191-204 | Twice the variance, times the number of ordered pairs of distinct places, is the sum of the squared differences of all pairs of splitting values |
| SplitMeasures.ImbalanceBySides | Externals/OPCODE/OPC_AABBTree.cpp:213-235 | One imbalance is no more than another exactly when its two sides differ no more in size |
| SplitMeasures.HalvesAreEven | Externals/OPCODE/OPC_AABBTree.cpp:286-298 | The arbitrary split leaves sides that differ by at most one, the negative one not smaller |
| IndexLists.SumsOfSameMembers | Externals/OPCODE/OPC_AABBTree.cpp:178-204 | The sums behind mean and variance do not depend on the order of the list |
| TreeBuild.ChosenOfSameMembers | Externals/OPCODE/OPC_AABBTree.cpp:160-283 | Nor does anything the rules choose |
| TreeBuild.RuledFork | Externals/OPCODE/OPC_AABBTree.cpp:324-337 | A node split by the rules stays split by the rules when its children reorganise their parts below it |
| TreeBuild.AABBTreeNode.SplitBalanced | Externals/OPCODE/OPC_AABBTree.cpp:213-241 | The split ends up along the first axis of least imbalance |
| TreeBuild.AABBTreeNode.SplitBest | Externals/OPCODE/OPC_AABBTree.cpp:242-276 | The split is along the longest axis that leaves neither side empty, and fails only when there is none |
| TreeBuild.AABBTreeNode.ChooseSplit | Externals/OPCODE/OPC_AABBTree.cpp:160-283 | Which axis each rule picks, when the split is valid, and how the slice is then divided |
| TreeBuild.AABBTreeNode.Subdivide | Externals/OPCODE/OPC_AABBTree.cpp:146-316 | Two children are made exactly when the list is longer than one and the limit, the rules are known, and the split is valid or must be complete; they share the slice, neither gets nothing, and both counters are right |
| TreeBuild.AABBTreeNode.BuildHierarchy | Externals/OPCODE/OPC_AABBTree.cpp:324-337 | Terminates and leaves a tree of nested slices with tight boxes over a permutation of the slice, the counter grown by its nodes; with complete known rules and a limit of at most 1 every leaf has one primitive |
| TreeBuild.AABBTree.Build | Externals/OPCODE/OPC_AABBTree.cpp:358-386 | Succeeds exactly for a nonempty list, whose indices end up a permutation of 0 to N - 1 cut up by the leaves; complete builds count 2N - 1 nodes; in the finished tree every node is split as the rules and the limit say, or is a leaf because they say so |
| TreeShapes.BoxesNest | Externals/OPCODE/OPC_AABBTree.cpp:324-337 | After the whole build every box contains the boxes of its children |
| TreeShapes.CompleteCounts | Externals/OPCODE/OPC_AABBTree.cpp:358-386 | A tree with one primitive at each leaf has 2N - 1 nodes, N - 1 of them inner |
| TreeShapes.CountTellsComplete | Externals/OPCODE/OPC_OptimizedTree.cpp:225-229 | A node count of 2N - 1 means exactly that every leaf holds one primitive |
| TreeShapes.TreeOfSlice | Externals/OPCODE/OPC_AABBTree.cpp:324-337 | The leaves in order are the index list, and every box covers the triangles below it |
| TreeFlattening.BuildCollisionTree | Externals/OPCODE/OPC_OptimizedTree.cpp:95-126 | Lays the tree out below the ids handed out, writes each slot it owns once and no other, and moves the running id past its nodes |
| TreeFlattening.BuildNoLeafTree | Externals/OPCODE/OPC_OptimizedTree.cpp:147-199 | The same for the inner nodes alone |
| TreeFlattening.AABBCollisionTree.Build | Externals/OPCODE/OPC_OptimizedTree.cpp:220-249 | Succeeds exactly for complete trees, fills each of the 2N - 1 slots once, ends with the running id at the node count, and the array decodes to the tree |
| TreeFlattening.AABBNoLeafTree.Build | Externals/OPCODE/OPC_OptimizedTree.cpp:270-299 | The same with N - 1 slots |
| TreeLayout.LaidHolds | Externals/OPCODE/OPC_OptimizedTree.h:24-38 | Following the tagged words of a laid out array gives back shape, boxes and primitives |
| TreeLayout.NoLeafLaidHolds | Externals/OPCODE/OPC_OptimizedTree.h:41-58 | The same without leaves |
| FlatTree.LeafWordDecodes | Externals/OPCODE/OPC_OptimizedTree.h:30-34 | A tagged primitive is always recognised as a leaf, and gives back its index if and only if the index fits 31 bits |
| ModelStream.Save | Externals/OPCODE/OPC_Model.cpp:320-355 | Writes the flags, the number of nodes, a checksum and the nodes, in this order and as bytes, with every address relative and every leaf word as it was |
| ModelStream.Load | Externals/OPCODE/OPC_Model.cpp:279-318 | On any stream with a header, with a checksum or without as the caller says, succeeds exactly for the supported format with all nodes and a matching or skipped checksum, and makes every offset absolute; reads past the end exactly when the nodes only fit if the checksum is counted among them |
| ModelStream.ChecksumCovers | Externals/OPCODE/OPC_Model.cpp:289-294 | A checksum matches if and only if it is that of all node bytes, as long as their number fits a word; beyond that it covers only as many as the wrapped length says |
| ModelStream.ChangedMatches | Externals/OPCODE/OPC_Model.cpp:289-294 | Other node bytes in a saved stream match if and only if they have the same checksum |
| ModelStream.LoadChanged | Externals/OPCODE/OPC_Model.cpp:279-318 | Loading a saved stream with changed nodes is refused exactly when the checksum tells them apart |
| NodeBytes.WordBytes | Externals/OPCODE/OPC_Model.cpp:322-326 | A word written lowest byte first comes back reduced to its width |
| NodeBytes.ByteOfWord | Externals/OPCODE/OPC_Model.cpp:322-326 | Byte i of a word holds its bits from 8 i on |
| NodeBytes.ImageRoundTrip | Externals/OPCODE/OPC_Model.cpp:300-302 | An array of nodes written anywhere among other bytes is read back from there |
| NodeBytes.NodeInImage | Externals/OPCODE/OPC_OptimizedTree.h:41-58 | Node k lies 40 k bytes into the image: its box, the word of its first child, the word of its second |
| ModelStream.RelativeIsOffset | Externals/OPCODE/OPC_Model.cpp:303-344 | What is saved for the address of node k is 40 k, and comes back as its new address |
| ModelStream.SavedReads | Externals/OPCODE/OPC_Model.cpp:279-355 | A saved stream, whatever follows it, has the supported format, all its nodes and a matching checksum, and gives back the nodes written |
| ModelStream.UnsummedReads | Externals/OPCODE/OPC_Model.cpp:279-318 | A stream without a checksum gives the nodes to a caller who says so |
| ModelStream.CutShort | Externals/OPCODE/OPC_Model.cpp:286-300 | No saved stream cut short loads: it is refused, unless at most four bytes are missing, when the comparison of sizes passes and the nodes are read past the end |
| ModelStream.ReadEarly | Externals/OPCODE/OPC_Model.cpp:286-302 | A saved stream read as one without a checksum is accepted, and the node bytes taken are those saved if and only if these repeat the checksum |
| ModelStream.WordRoundTrip | Externals/OPCODE/OPC_Model.cpp:303-344 | A word is a leaf after saving exactly when it was one before, leaves come back unchanged, and addresses come back moved by the difference of the bases |
| ModelStream.MovedHolds | Externals/OPCODE/OPC_Model.cpp:279-355 | From every node the loaded array decodes to the same tree as the saved one |
| ModelStream.SaveThenLoad | Externals/OPCODE/OPC_Model.cpp:279-355 | Saved from one even address and loaded at another, the array decodes to the same tree |
| Model.OpcodeModel.Build | Externals/OPCODE/OPC_Model.cpp:187-277 | Succeeds exactly for nonempty meshes with complete rules that are known or not needed, and leaves a flattened tree with tight boxes whose leaves are the triangles 0 to N - 1, each once |
| Model.OpcodeModel.CollideBox | Externals/OPCODE/OPC_AABBCollider.cpp:103-124 | Whatever the layout, a plain box query reports each triangle index the test accepts exactly once, and a first-contact query, coherent or not, one that is accepted if and only if there is one |
| Model.OpcodeModel.CollideOrientedBox | Externals/OPCODE/OPC_OBBCollider.cpp:113-135 | Whatever the layout and the mode, the same for the triangles that share a point with the oriented box in the world |
| Model.OpcodeModel.CollidePlanes | Externals/OPCODE/OPC_PlanesCollider.cpp:96-121 | The same for planes in the space of the model |
| Model.OpcodeModel.CollideSphere | Externals/OPCODE/OPC_SphereCollider.cpp:114-140 | On every mesh each triangle with area is reported exactly once if it touches the sphere in the world and never otherwise, and each degenerate one at most once and only if it touches; without degenerate triangles, and on every mesh its tight tree answers in full, this is the whole scan; for the first contact, coherent or not, one that touches, whenever a triangle with area does |
| Model.OpcodeModel.CollideRay | Externals/OPCODE/OPC_RayCollider.cpp:263-287 | A ray or segment in the world: each triangle it meets where it stands has exactly one stored face, which holds the point where they meet, and no other triangle has one |
| Model.OpcodeModel.CollideRayClosest | Externals/OPCODE/OPC_RayCollider.cpp:263-287 | The nearest hit in the world: one face, of a triangle that is met there, and no crossing of a triangle that is met is nearer; none if none is met |
| Model.OpcodeModel.CollidePair | Externals/OPCODE/OPC_TreeCollider.cpp:101-233 | Refuses models of different layouts, and otherwise reports each accepted pair of triangle indices exactly once |
| Model.ScanOfModel | Externals/OPCODE/OPC_Model.cpp:187-277 | A scan over the leaves of a built model reports exactly the accepted indices below N, each once |

## Left out

- Floating-point rounding, NaN, signed zero and bit tricks: reals are used throughout, and `INV3` is exactly a third.
- Quantized trees, their builds and their queries, and the vanilla `AABBTree` overloads of the queries.
- User callbacks, the node pool, memory allocation failures, null pointers, the convex hull, logging and files; a stream is its
  bytes, and the checksum, the bytes of floats and the square root are abstract functions.
- Triangle-triangle overlap geometry: an abstract test, with what is asked of it as hypotheses of the whole query.
- RayCollider.RayQuery.Stab: the number of intersections of bounded queries is stated between bounds, because how many hits beyond
  the bound are come upon depends on the shape of the tree.
- TreeCollider.TreeQuery.Collide: a cached pair that is tried must name triangles of the two trees; the pair a reset cache holds
  does when the second mesh has at least two.
- ModelStream.Load: a stream shorter than its header, which the code reads without looking, is not modelled.
- PlanesCollider.PlanesQuery.Collide: fewer than 32 planes, because the full mask is one machine word.
- AabbCollider.BoxQuery.Collide: when the box is to be fattened, extents are not negative and the coefficient is at least 1.
- ObbCollider.ObbQuery.Collide: extents are not negative, as for any box.
- `SPLIT_GEOMCENTER`: the splitting loop calls a function the triangle builder does not override, so the bit has no effect.
- TreeFlattening.AABBNoLeafTree.Build: at least two triangles, because the code reads the children of a root that has none.
- TreeBuild.AABBTree.Build: a tree object is built once; building again over old children is not modelled.
- Wrap-around of counters and of `visit_count` at 32 bits, and address ranges that wrap around.
- `compiler.get` and `get_case_list`: given maps. The sub-graph query takes `execution_is_branchless` as a given predicate, because
  the loop of the code does not end on a cycle of direct jumps; it is modelled for runs that end.
- `walk_from`, which visits blocks along the recorded edges: an easy recursion.
- Discord wrappers, the Python bridge, soak tools and enumerations.
