# compas_cgal core, modelled in Dafny

compas_cgal binds CGAL geometry algorithms to the COMPAS framework. Most of
the repository forwards arrays to CGAL. This project models the logic the
repository implements itself, around those calls:

- **Domain marking of a constrained Delaunay triangulation.** The nesting-level
  flood fill (`mark_domains`) crosses only unconstrained edges and collects
  constrained ones in a border list. Each face's level ends as the fewest
  constraints crossed to reach it from the infinite face, and a face is in
  the domain when its level is odd. The result builders then number the finite vertices and keep the
  finite in-domain faces.
- **Other triangulation glue.** This covers the vertex-info mapping of the
  plain Delaunay triangulation, the hole seeds and size criterion of the
  refined mesh, and the Python argument preparation: default point arrays,
  dropping holes of fewer than 3 points, and fixed flags.
- **Polyline simplification.** `pmp_simplify_polylines` runs an iterative
  Ramer-Douglas-Peucker pass that marks a `keep` vector from an explicit
  stack, then compacts the kept rows.
- **Closest points on a polyline.** The model covers the shape rules and
  degenerate branches of `pmp_closest_points_on_polyline`.
- **Marshalling converters** of `compas.h` and `stdafx.cpp`. They turn (V, F)
  matrices into a mesh or polyhedron and back, and polylines into point
  matrices.
- **Straight-skeleton wrappers.** The Python layer checks orientation,
  reverses mis-oriented loops in the with-holes offset, checks the weight
  count, dispatches on the offset's sign, groups the result and builds the
  skeleton graph. The native halfedge filter emits each bisector once.
- **The heat-geodesic solver.** The model covers source filtering and the
  solver object, which keeps its mesh and replaces its source set on each
  `solve`.
- **Skeleton re-hydration.** Skeleton edges are flattened into parallel
  coordinate and index lists.
- **The nanobind buffer demo.** `scale_matrix` works in place, and
  `create_matrix` builds a constant matrix.

Every CGAL algorithm enters the model as an input value or a function
parameter. Examples are the triangulation itself, the heat-method estimate,
the AABB closest-point query, the straight skeleton and its offsets, and the
contracted skeleton. The model states what the repository's code does with
what those produce.

Code that mutates state is modelled imperatively:

- the nesting levels are an `array<int>` that `MarkDomains` fills;
- the `keep` vector is an `array<bool>`;
- `scale_matrix` works on an `array2<real>`;
- the heat solver is a class;
- the holes of the with-holes offset are objects whose point lists are
  reversed in place.

Pure code is modelled as functions, and the marshalling loops are methods
proved against reference functions.

Distances are kept squared, over the reals. The square root is monotone, so
comparing squares decides the same threshold tests (see
`Polylines.ExceedsThresholdIsDistanceComparison`). Polygon normals are the
sign of the shoelace signed area of the loop in the xy-plane.

## Model

| member | source | states |
|---|---|---|
| Triangulation.CppRemainder | src/triangulation.cpp:12 | C++ `%` takes the sign of the dividend: a non-negative level leaves a remainder in [0, 2), a negative one in (-2, 0] |
| Triangulation.InDomainIffOddLevel | src/triangulation.cpp:10-13 | A face is in the domain exactly when its level is odd and non-negative, so an unreached face (level -1) is not |
| Triangulation.InDomainAlternates | src/triangulation.cpp:10-13 | Of two levels k and k+1 (k >= 0), exactly one is in the domain, so crossing a constraint toggles membership |
| Triangulation.LabelFace | src/triangulation.cpp:110-130 | Labelling a face writes only that face's level. Across each of its 3 edges to an unlabelled neighbour, it queues the neighbour when the edge is free and appends the edge to the border when it is constrained |
| Triangulation.VisitFace | src/triangulation.cpp:104-131 | One queue step keeps the fill's invariants: the labels track the visit order, the queue is linked to visited faces, the border holds every constrained edge to an unlabelled face, and the number of unlabelled faces strictly drops |
| Triangulation.MarkDomain | src/triangulation.cpp:91-133 | If `start` is labelled, nothing changes and the border is untouched. Otherwise exactly the newly labelled faces get `index`, each reached through unconstrained edges from `start`. The border grows only by constrained edges of those faces, and faces joined by a free edge keep equal levels |
| Triangulation.LevelConstantAlongFreePath | src/triangulation.cpp:114-128 | After the fill, every face on a path of unconstrained edges from a labelled face has that face's level |
| Triangulation.MarkDomains | src/triangulation.cpp:135-158 | The infinite face gets level 0, and every level is >= -1. Every neighbour of a labelled face is labelled. Free edges join equal levels, and across any edge the level rises by at most 1. Every level-0 face is reached from the infinite face by free edges. Every level-k face (k > 0) is reached by free edges from the far side of a constrained edge whose near face has level k-1. So each face's level is the fewest constraints crossed on any path to it from the infinite face, and the faces no path reaches stay -1 |
| Triangulation.ResetLevels | src/triangulation.cpp:137-140 | Every face's level is reset to -1 |
| Triangulation.PopBorderEdge | src/triangulation.cpp:146-157 | The front edge is popped. If its far face is labelled, the levels are unchanged and the border is the rest. Otherwise exactly the faces that were -1 and are now labelled get the near face's level + 1, all of them reached from the far face by free edges; no labelled face changes; and the rest of the border stays in front of the new edges. The loop invariant is kept (levels, origins, adjacent levels within 1, the border sound, complete and ordered by level), and (unlabelled faces, border length) strictly decreases |
| Triangulation.FillAcrossJustified | src/triangulation.cpp:153-156 | After the far side of a popped border edge is flooded with the near face's level + 1, every newly labelled face has that constrained edge as its origin, and every other labelled face keeps its origin |
| Triangulation.FillAcrossClose | src/triangulation.cpp:146-157 | The same fill keeps adjacent levels within 1: the new level is one above the border's front, and every labelled face next to the new region waits on the border, so its level is at least the front's |
| Triangulation.FillAcrossFifo | src/triangulation.cpp:146-157 | The same fill keeps the border FIFO ordered by level: the appended edges all start at the new level, no queued edge is above it, and no face is more than one level above the new front |
| Triangulation.TrackedReach | src/triangulation.cpp:104-131 | Every face one fill labels is reached from its start across unconstrained edges |
| Triangulation.LevelAtMostCrossings | src/triangulation.cpp:135-158 | After marking, along any path from a labelled face the level rises by at most the number of constraints crossed, and the path ends at a labelled face |
| Triangulation.WalkWithinLevel | src/triangulation.cpp:135-158 | After marking, a labelled face is reached from the infinite face by a path crossing at most as many constraints as its level |
| Triangulation.LevelIsFewestCrossings | src/triangulation.cpp:135-158 | After marking, a labelled face's level is the fewest constraints crossed on any path from the infinite face, and a face is -1 iff no path reaches it |
| Triangulation.LabelledAlongPath | src/triangulation.cpp:135-158 | Once marking ends, every face on any path from a labelled face is labelled |
| Triangulation.FiniteRankIsBijection | src/triangulation.cpp:261-277 | The vertex_index numbering gives the finite vertices distinct consecutive numbers 0..nv-1 in iteration order, skipping the infinite vertex |
| Triangulation.DomainFacesExactly | src/triangulation.cpp:245-252 | The faces counted and loaded are exactly the finite in-domain faces, in increasing face order |
| Triangulation.CountDomainFaces | src/triangulation.cpp:245-252 | The counter `f` ends equal to the number of finite in-domain faces |
| Triangulation.LoadVertices | src/triangulation.cpp:261-277 | TV holds one row (x, y, 0) per finite vertex in iteration order. The index map holds exactly the finite vertices, each at its rank |
| Triangulation.LoadFaces | src/triangulation.cpp:281-296 | TF holds one row per finite in-domain face, in order, with its three vertices' numbers; the fill counter `j` ends at the count |
| Triangulation.AssembleResult | src/triangulation.cpp:245-296 | (TV, TF) are the finite vertices as (x, y, 0) rows and the finite in-domain faces' numbered rows. The refined mesh's loops (lines 415-468) are the same assembly, with CGAL's is_in_domain flags as input |
| Triangulation.ResultIsIndexedMesh | src/triangulation.cpp:256-296 | TF has one row per finite in-domain face, and every face of that kind is listed. Every entry is in [0, nv) and names the TV row holding that vertex's x, y and z = 0 |
| Triangulation.ConstrainedResult | src/triangulation.cpp:241-299 | TV is the finite vertices. TF is the finite faces whose level is odd, and each face's level is the fewest constraints crossed to reach it from the infinite face (-1 when unreachable). So a face is kept iff it is finite and an odd number of constraints separates it from the outside |
| Triangulation.InputPairs | src/triangulation.cpp:48-54 | Row i of V is handed over as the point (V[i][0], V[i][1]) carrying info i |
| Triangulation.DelaunayFaces | src/triangulation.cpp:58-70 | F has one row per finite face, holding its three vertices' infos in order |
| Triangulation.DelaunayFacesIndexInput | src/triangulation.cpp:48-67 | Every F entry is a row of V, and that row's x and y are the face vertex's coordinates |
| Triangulation.RefineSeeds | src/triangulation.cpp:378-390 | One seed per hole, in hole order, at the mean of the hole's x and y (none for a hole without points) |
| Triangulation.HoleSeedInBoundingBox | src/triangulation.cpp:382-387 | A hole's seed lies inside the hole's bounding box |
| Triangulation.RefineCriteria | src/triangulation.cpp:392-401 | A size bound is set iff maxlength > 0, and then equals maxlength with aspect bound 0. Otherwise the criteria are CGAL's defaults (0.125, 0) |
| Triangulation.MinAngleIgnored | src/triangulation.cpp:316 | The requested minimum angle has no effect on the criteria |
| TriangulationArgs.LongHolesExactly | src/compas_cgal/triangulation.py:127-134 | The kept holes are exactly the input holes of at least 3 points, and there are no more than the input holes |
| TriangulationArgs.LongHolesInOrder | src/compas_cgal/triangulation.py:127-134 | The kept holes are input holes at strictly increasing positions, so input order is kept |
| TriangulationArgs.LongHolesIdempotent | src/compas_cgal/triangulation.py:198-204 | Dropping short holes twice drops nothing more |
| TriangulationArgs.LongHolesAllLong | src/compas_cgal/triangulation.py:198-204 | With no short hole, the holes pass unchanged |
| TriangulationArgs.DropShortHoles | src/compas_cgal/triangulation.py:127-134 | The hole loop with `continue` builds exactly the long holes of the given list (none when missing) |
| TriangulationArgs.AppendAll | src/compas_cgal/triangulation.py:71-81 | The hole and curve loops forward every item in order (none when missing) |
| TriangulationArgs.MaxLengthArg | src/compas_cgal/triangulation.py:212 | A missing maxlength becomes 0.0, and a given one is passed as is |
| TriangulationArgs.ConstrainedArgs | src/compas_cgal/triangulation.py:68-88 | Missing points become an empty list. Every hole and curve is forwarded, and is_conforming is false |
| TriangulationArgs.ConformingArgs | src/compas_cgal/triangulation.py:120-150 | Missing points become a 0 x 3 array. Short holes are dropped, curves are unfiltered, and is_conforming is true |
| TriangulationArgs.RefinedArgs | src/compas_cgal/triangulation.py:191-221 | Missing points become a 0 x 2 array. Short holes are dropped and curves unfiltered. minangle is 0.0, maxlength is as MaxLengthArg, and is_optimized is passed through |
| TriangulationArgs.RefinedCriteriaFromWrapper | src/compas_cgal/triangulation.py:212-221 | A missing maxlength reaches the native side as the default criteria, and a positive one as the size bound |
| Polylines.SquaredDistance | src/polylines.cpp:23 | A squared distance is non-negative, and zero from a point to itself |
| Polylines.Clamp01 | src/polylines.cpp:28 | The projection parameter is clamped into [0, 1], unchanged inside it |
| Polylines.SegmentDistanceSq | src/polylines.cpp:13-34 | The point-to-segment distance is non-negative |
| Polylines.SegmentDistanceDegenerate | src/polylines.cpp:21-24 | A segment shorter than the cutoff falls back to point-to-point distance from its start |
| Polylines.SegmentDistanceAtStart | src/polylines.cpp:13-34 | A segment's start lies on the segment (distance 0) |
| Polylines.SegmentDistanceAtEnd | src/polylines.cpp:26-33 | A non-degenerate segment's end lies on the segment (distance 0) |
| Polylines.ExceedsThresholdIsDistanceComparison | src/polylines.cpp:71 | The test on the squared distance is `max_dist > threshold` on the distance |
| Polylines.Farthest | src/polylines.cpp:53-69 | The scan yields the first interior row of maximal distance, or (seg_start, 0) when none is farther than 0 |
| Polylines.KeptBy | src/polylines.cpp:51-75 | Only rows strictly inside a range are ever marked |
| Polylines.KeptByMarksFarthestAboveThreshold | src/polylines.cpp:51-75 | A range marks something iff it has an interior row and its farthest row exceeds the threshold. A range entirely within the threshold marks nothing |
| Polylines.KeptByAntitone | src/polylines.cpp:71-75 | A larger threshold keeps a subset of the rows |
| Polylines.GuardRedundantForNonNegativeThreshold | src/polylines.cpp:53-75 | For threshold >= 0 the added `maxIdx != seg_start` guard never fires, so the corrected pass marks what the source marks |
| Polylines.ScanRange | src/polylines.cpp:53-69 | The inner loop finds exactly Farthest's row and distance |
| Polylines.SplitRange | src/polylines.cpp:71-75 | Marking the farthest row and pushing both halves keeps the marks tracking the target and strictly shrinks the stack's work |
| Polylines.RdpSimplify | src/polylines.cpp:37-77 | The stack loop terminates, and `keep[k]` ends true exactly when it was true before or k is marked by Douglas-Peucker on [start, end]. Nothing else changes |
| Polylines.RdpStep | src/polylines.cpp:47-76 | One outer iteration keeps the marks tracking the target and decreases (work, stack length) lexicographically |
| Polylines.AsWrittenNeverTerminates | src/polylines.cpp:51-75 | With the source's test alone and a negative threshold, the stack of rows (0,0),(1,0),(2,0) is never empty |
| Polylines.PlanarPoints | src/polylines.cpp:56-64 | Only columns 0 and 1 of each row enter the distance |
| Polylines.KeepMask | src/polylines.cpp:97-102 | The keep vector has one entry per row |
| Polylines.SimplifiedKeepsEndsInOrder | src/polylines.cpp:97-121 | For n >= 3 rows the result has between 2 and n rows and as many columns. It begins with the first row and ends with the last. Every row is an input row, taken in increasing index order |
| Polylines.FilterAt | src/polylines.cpp:111-120 | Compacted row j is the input row at the j-th set keep bit, with every column |
| Polylines.SetIndicesFacts | src/polylines.cpp:104-120 | The kept indices are exactly the set bits, strictly increasing, and as many as the count |
| Polylines.FilterLength | src/polylines.cpp:104-111 | The compacted result has exactly kept_count rows |
| Polylines.CountKept | src/polylines.cpp:105-108 | The counting loop returns the number of set keep bits |
| Polylines.CopyKept | src/polylines.cpp:111-120 | The copy loop yields exactly the kept rows in order |
| Polylines.SimplifyPolyline | src/polylines.cpp:87-121 | A polyline of fewer than 3 rows is returned unchanged. Otherwise the result keeps both ends and the Douglas-Peucker marks |
| Polylines.SimplifyPolylines | src/polylines.cpp:79-125 | One result per input polyline, in input order |
| Polylines.NoSegmentsIffAllCoincide | src/polylines.cpp:156-177 | No segment survives iff every row is the same point as row 0 (always for one row) |
| Polylines.ClosestPointsOnPolyline | src/polylines.cpp:128-197 | The output is #queries x min(query cols, polyline cols). An empty polyline gives all zeros. One point, or all coincident points, give row 0 everywhere. Otherwise each row is the query's closest point truncated to the output width |
| Convert.AddVertices | src/compas.h:192-198 | One vertex per V row, in row order, whose descriptor is its row number |
| Convert.MeshFromVerticesAndFaces | src/compas.h:183-209 | The mesh has V's rows as points. Face i uses F(i,0..2) only, and with entries in [0, v) the mesh is indexed. The copy in src/stdafx.cpp:74-102 does the same |
| Convert.NgonFromVerticesAndFaces | src/compas.h:211-233 | One face per list, using every entry, so faces of any width are supported |
| Convert.BuildPolyhedron | src/compas.h:139-173 | All vertices come first, then one facet per F row using all of its columns. The copy in src/stdafx.cpp:4-40 does the same |
| Convert.MeshToMatrices | src/compas.h:240-267 | V is #v x 3 with a vertex's coordinates at row idx(). F is #f x width with a face's vertices in circulation order at row idx() |
| Convert.MeshToVerticesAndFaces | src/stdafx.cpp:154-186 | The triangle variant at width 3 |
| Convert.QuadmeshToVerticesAndFaces | src/compas.h:274-301 | The quad variant at width 4. The copy in src/stdafx.cpp:199-231 does the same |
| Convert.MatricesRoundTrip | src/compas.h:183-267 | Reading back a triangle mesh built from (V, F) gives V and F again |
| Convert.MeshRoundTrip | src/compas.h:183-267 | Building from an indexed mesh's matrices gives the same points and faces |
| Convert.PolylinesToListsOfPoints | src/compas.h:308-329 | One (length x 3) matrix per polyline, in list order, with coordinates copied. The copy in src/stdafx.cpp:240-262 does the same |
| Convert.PointMatrixRoundTrip | src/compas.h:308-329 | Reading a point matrix's rows gives back the polyline |
| Convert.PolyhedronToVerticesAndFaces | src/compas.h:336-368 | Vertices are numbered 0..v-1 in iteration order, and facet entries are those numbers |
| Convert.FacetsThrough | src/compas.h:355-365 | The facet loop writes each facet's vertices through the vertex_id map, in circulation order |
| Convert.PolyhedronToVerticesAndFacesWithIds | src/stdafx.cpp:273-315 | Writing id = i into each vertex and emitting facets through those ids gives the same matrices |
| Geodesics.ValidSourcesExactly | src/geodesics.cpp:31-36 | A source is used iff it is listed and lies in [0, n) |
| Geodesics.OutOfRangeSourcesIgnored | src/geodesics.cpp:31-36 | Adding out-of-range sources anywhere in the list changes nothing |
| Geodesics.SameSourcesSameSet | src/geodesics.cpp:73-78 | Order and repetition of the sources do not matter |
| Geodesics.AddSources | src/geodesics.cpp:31-36 | The add_source loop builds exactly the valid source set |
| Geodesics.DistanceColumn | src/geodesics.cpp:42-45 | The result is n x 1, and row v holds vertex v's distance |
| Geodesics.HeatGeodesicDistances | src/geodesics.cpp:12-48 | n x 1 result whose row v is the estimate for v from exactly the in-range sources |
| Geodesics.HeatGeodesicSolver.constructor | src/geodesics.cpp:59-66 | The mesh is built from (V, F), the vertex count fixed, every distance 0.0 and no source set |
| Geodesics.HeatGeodesicSolver.Solve | src/geodesics.cpp:68-90 | The previous sources are cleared. The source set becomes exactly this call's in-range sources, and the result is n x 1 with each vertex's estimate |
| Geodesics.HeatGeodesicSolver.NumVertices | src/geodesics.cpp:92 | The vertex count equals the mesh's and the distance map's size |
| Geodesics.SolverAgreesWithFunction | src/geodesics.cpp:13-90 | Whatever the solver was asked before, a solve returns what the one-shot function returns |
| NanobindTypes.ScaleMatrix | src/nanobind_types.h:11-13 | The caller's buffer is doubled element-wise in place, with its shape kept |
| NanobindTypes.HalvedUndoesDoubled | src/nanobind_types.h:11-13 | Doubling loses nothing: halving undoes it |
| NanobindTypes.CreateMatrix | src/nanobind_types.h:15-20 | A 3 x 3 matrix whose entry (i, j) is 1.1 * (3i + j + 1) |
| NanobindTypes.ScaledCreateMatrix | src/nanobind_types.h:11-20 | Scaling the created matrix gives 2.2 .. 19.8 |
| Skeletonization.VertexIndexMap | src/skeletonization.cpp:19-22 | Every mesh vertex, and no other, maps to its own idx() |
| Skeletonization.CollectIndices | src/skeletonization.cpp:60-62 | A skeleton vertex's list holds the mapped numbers of its contracted vertices, in order |
| Skeletonization.MeshSkeleton | src/skeletonization.cpp:9-74 | start/end points are the flattened source and target points, in edge order. There is one index list per edge on each side, and each mesh vertex keeps its own number. A contracted vertex number the mesh does not have is looked up as 0, as std::map's operator[] inserts it |
| Skeletonization.FlattenLength | src/skeletonization.cpp:41-56 | Three coordinates per point |
| Skeletonization.UnflattenFlatten | src/skeletonization.cpp:41-56 | Reading the flat list three by three gives back the points |
| Skeletonization.FlatListsHoldEdgeEnds | src/skeletonization.cpp:41-56 | The coordinate lists have 3 x #edges entries, and the k-th point read back is edge k's source (target) |
| StraightSkeleton.ReverseNegatesArea | src/compas_cgal/straight_skeleton_2.py:185-187 | Reversing a loop negates its signed area |
| StraightSkeleton.ReverseFlipsNormal | src/compas_cgal/straight_skeleton_2.py:185-200 | Reversal turns normal [0,0,1] into [0,0,-1] and back, and leaves a degenerate loop degenerate |
| StraightSkeleton.ReverseReverse | src/compas_cgal/straight_skeleton_2.py:199 | Reversing twice restores the loop |
| StraightSkeleton.GraphFromSkeletonData | src/compas_cgal/straight_skeleton_2.py:18-49 | The nodes of the zipped (point, index) pairs, then the zipped edges with auto-added endpoints and accumulated tags |
| StraightSkeleton.NodePointsLast | src/compas_cgal/straight_skeleton_2.py:38-39 | A node key gets the point of its last occurrence |
| StraightSkeleton.NodePointsKeys | src/compas_cgal/straight_skeleton_2.py:38-39 | The node keys are exactly the listed indices |
| StraightSkeleton.WithEndpointsKeeps | src/compas_cgal/straight_skeleton_2.py:41-48 | Adding edges adds their endpoints as nodes and keeps every existing node's point |
| StraightSkeleton.EdgeTagsExactly | src/compas_cgal/straight_skeleton_2.py:41-48 | The graph holds exactly the listed edges, each with the tags of the positions listing it |
| StraightSkeleton.TagsForListed | src/compas_cgal/straight_skeleton_2.py:41-48 | A listed edge carries its type's tag (0 inner_bisector, 1 bisector, else boundary). An edge listed once carries exactly that tag |
| StraightSkeleton.TagsForAbsent | src/compas_cgal/straight_skeleton_2.py:41-48 | An unlisted edge carries no tag |
| StraightSkeleton.Package | src/compas_cgal/straight_skeleton_2.py:77-80 | as_graph gives the graph of the arrays, and otherwise the arrays themselves |
| StraightSkeleton.InteriorStraightSkeleton | src/compas_cgal/straight_skeleton_2.py:52-80 | Raises iff the outer normal is not [0,0,1], naming that normal. Otherwise it returns the skeleton arrays, or with as_graph the graph built from them |
| StraightSkeleton.FirstBadHole | src/compas_cgal/straight_skeleton_2.py:113-117 | The first hole whose normal is not [0,0,-1], all earlier ones being [0,0,-1] |
| StraightSkeleton.InteriorStraightSkeletonWithHoles | src/compas_cgal/straight_skeleton_2.py:83-123 | A wrong outer normal raises first. Then the first hole not [0,0,-1] raises with its index and normal. Otherwise the skeleton of the outer loop and all holes is returned, as arrays or, with as_graph, as the graph built from them |
| StraightSkeleton.DropBox | src/compas_cgal/straight_skeleton_2.py:152-153 | The outer offsets lose their first loop (the bounding box) and keep the rest in order |
| StraightSkeleton.OffsetPolygon | src/compas_cgal/straight_skeleton_2.py:126-156 | Raises iff the normal is not [0,0,1]. A negative offset gives the outer offset at abs(offset) without its box, and any other the inner offset |
| StraightSkeleton.WeightedOffsetPolygon | src/compas_cgal/straight_skeleton_2.py:223-264 | Raises iff the normal is wrong (checked first) or #weights != #points. Otherwise it dispatches on the sign as OffsetPolygon does |
| StraightSkeleton.RepairedOrientation | src/compas_cgal/straight_skeleton_2.py:185-203 | A repaired loop has the wanted normal unless it has zero area |
| StraightSkeleton.FirstDegenerateHole | src/compas_cgal/straight_skeleton_2.py:194-203 | The first hole with no normal; every earlier hole has one |
| StraightSkeleton.Grouped | src/compas_cgal/straight_skeleton_2.py:213-219 | One group per offset result: the first loop is the polygon and the rest its holes, in order. A group without loops fails |
| StraightSkeleton.RepairHoles | src/compas_cgal/straight_skeleton_2.py:193-206 | Each hole object is left alone or reversed in place. It fails iff some hole has zero area, naming the first such hole k. On failure the objects named before k have been repaired in place and every other object is untouched. On success every hole has normal [0,0,-1] and H is the holes' point lists |
| StraightSkeleton.StoppedAt | src/compas_cgal/straight_skeleton_2.py:194-203 | When the loop stops at hole k, an object named among the first k entries holds its repaired loop (also through an aliased later entry), and any other object holds its original loop |
| StraightSkeleton.RepairHole | src/compas_cgal/straight_skeleton_2.py:195-206 | One hole: reversed in place when counter-clockwise, and accepted iff it then has normal [0,0,-1] |
| StraightSkeleton.OffsetPolygonWithHoles | src/compas_cgal/straight_skeleton_2.py:159-220 | Only a zero-area outer loop or hole fails; a clockwise outer loop or counter-clockwise hole is reversed instead. Each hole object's points are left as they were or reversed out of counter-clockwise order; when hole k has zero area the objects named before k have been repaired in place and the rest are untouched; on success every hole has been repaired in place and turns clockwise, and the offset of the repaired loops is grouped |
| StraightSkeletonNative.PolygonOf | src/straight_skeleton_2.cpp:17-21 | The polygon is the (x, y) of each V row, in row order |
| StraightSkeletonNative.EmittedBelowExactly | src/straight_skeleton_2.cpp:24-38 | The emitted halfedges are exactly the bisectors whose vertex orders below their opposite's |
| StraightSkeletonNative.CreateInteriorStraightSkeleton | src/straight_skeleton_2.cpp:14-40 | One edge per emitted halfedge, in halfedge order: (vertex, opposite vertex), both at z = 0 |
| StraightSkeletonNative.OneOfEachPair | src/straight_skeleton_2.cpp:26-37 | A non-bisector is never emitted. For a bisector with distinct endpoints, exactly one of it and its opposite is |

## Left out

- CGAL's own algorithms are not modelled. This covers building and conforming
  the triangulations, `refine_Delaunay_mesh_2`, `lloyd_optimize_mesh_2`
  (`is_optimized` is only passed through), the heat method, AABB
  closest-point search, mean-curvature skeleton contraction, and straight
  skeleton and offset construction. They enter as inputs or function
  parameters, and their internal guarantees (a valid triangulation, mirror
  edges) are stated as preconditions.
- Floating point is not modelled: values are reals. The square root is
  replaced by comparing squares, and the 1e-12 cutoff is an exact real. CGAL's
  exact-kernel-to-double conversion is not modelled.
- Polygon normals come from the exact shoelace area, not `normal_polygon`
  with `TOL.is_allclose`. Loops are taken to lie in the xy-plane; tilted or
  non-planar loops are not modelled.
- Triangulation.RefineSeeds: a hole with no points gives no seed (`None`). The
  source divides 0 by 0 there and seeds at NaN.
- Triangulation.LoadVertices: vertex handles are modelled as vertex numbers,
  and unordered_map lookups as a map over them.
- Convert: a CGAL mesh or polyhedron is modelled as points plus faces.
  Failure of `add_face` or of the incremental builder on non-manifold input
  is not modelled. The builders' index preconditions are preconditions here
  because the source does not check them.
- Convert.MeshToMatrices, Convert.PolyhedronToVerticesAndFaces: these require
  faces of exactly the written width (3 or 4), as the source assumes without
  checking. Wider faces would write past the matrix.
- Integer widths are not modelled. Indices and counters are unbounded
  naturals, and the int/unsigned conversions of indices and levels are not
  modelled.
- Polylines.ClosestPointsOnPolyline: the closest point is a parameter
  standing for the AABB query. The docstring's claim about closest points is
  not modelled; the code's shape rules are.
- StraightSkeletonNative: vertex handle addresses, which order the
  vertices, are modelled as distinct integers per vertex.
- StraightSkeletonNative: the legacy pybind11 registration and its return
  type are left out.
- Python-side array coercion (`np.asarray`, dtype and order), the
  construction of COMPAS `Polygon` and `Graph` objects, and compas Graph
  attribute dictionaries beyond the edge tag are not modelled.
- The binding registration (`NB_MODULE`) and the thin Python wrappers that
  only forward arrays are not modelled.
- Triangulation.DelaunayFaces: the Python `delaunay_triangulation` wrapper
  only converts points and forwards them, so it is not modelled separately.

## Findings

| source | as written | input that shows it | evidently intended | confidence | as-written member | corrected member |
|---|---|---|---|---|---|---|
| src/polylines.cpp:51-75 | `rdp_simplify` splits a range whenever `max_dist > threshold`. With a negative threshold and no interior row farther than 0, it marks `seg_start` and pushes `(seg_start, seg_start)` and `(seg_start, seg_end)`, so the same range returns forever | rows (0,0), (1,0), (2,0) with threshold -1.0 | Split only on a real farthest row (`max_idx != seg_start`), so every pushed range is strictly shorter and the loop ends. For threshold >= 0 this is what the code already does | not executed | Polylines.AsWrittenNeverTerminates | Polylines.RdpSimplify |
