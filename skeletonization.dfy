/** src/skeletonization.cpp: flattening a mean-curvature-flow skeleton into
    the four parallel lists handed back to Python. The contraction itself is
    CGAL's; the skeleton it produces is an input here. */
module Skeletonization {
  import opened Types

  /** A skeleton vertex: its point and the mesh vertices contracted into it. */
  datatype SkeletonNode = SkeletonNode(point: Point3, vertices: seq<nat>)

  /** The skeleton graph: its vertices and its edges (source, target). */
  datatype Skeleton = Skeleton(nodes: seq<SkeletonNode>, edges: seq<(nat, nat)>)

  ghost predicate WellFormed(s: Skeleton)
  {
    forall e :: 0 <= e < |s.edges| ==> s.edges[e].0 < |s.nodes| && s.edges[e].1 < |s.nodes|
  }

  /** The x, y, z of each point in turn. */
  function Flatten(points: seq<Point3>): seq<real>
  {
    if points == [] then [] else Flatten(points[..|points| - 1]) + Row3(points[|points| - 1])
  }

  /** Every three coordinates read back as a point. */
  function Unflatten(xs: seq<real>): seq<Point3>
    requires |xs| % 3 == 0
  {
    if xs == [] then []
    else Unflatten(xs[..|xs| - 3]) + [Point3(xs[|xs| - 3], xs[|xs| - 2], xs[|xs| - 1])]
  }

  lemma {:induction false} FlattenLength(points: seq<Point3>)
    ensures |Flatten(points)| == 3 * |points|
  {
    if points != [] {
      FlattenLength(points[..|points| - 1]);
    }
  }

  /** The flat coordinate list holds the points and nothing else: reading it
      back three by three gives the points. */
  lemma {:induction false} UnflattenFlatten(points: seq<Point3>)
    ensures |Flatten(points)| % 3 == 0 && Unflatten(Flatten(points)) == points
  {
    FlattenLength(points);
    if points != [] {
      var init := points[..|points| - 1];
      var last := points[|points| - 1];
      var xs := Flatten(points);
      var n := |xs|;
      UnflattenFlatten(init);
      FlattenLength(init);
      assert n == 3 * |init| + 3;
      assert xs == Flatten(init) + Row3(last);
      assert xs[..n - 3] == Flatten(init);
      assert Unflatten(xs) == Unflatten(xs[..n - 3]) + [Point3(xs[n - 3], xs[n - 2], xs[n - 1])];
      assert Point3(xs[n - 3], xs[n - 2], xs[n - 1]) == last;
      assert points == init + [last];
    }
  }

  /** Flattening one more point appends its coordinates. */
  lemma FlattenNext(points: seq<Point3>, i: nat)
    requires i < |points|
    ensures Flatten(points[..i + 1]) == Flatten(points[..i]) + Row3(points[i])
  {
    assert points[..i + 1][..i] == points[..i];
  }

  /** The vertex_index_map lookup: std::map's operator[] gives 0 to a vertex
      it does not hold. */
  function MapIndex(vertexIndexMap: map<nat, int>, v: nat): int
  {
    if v in vertexIndexMap then vertexIndexMap[v] else 0
  }

  /** The mesh vertex numbers of a skeleton vertex's contracted vertices. */
  function MappedIndices(vertexIndexMap: map<nat, int>, vertices: seq<nat>): seq<int>
  {
    seq(|vertices|, k requires 0 <= k < |vertices| => MapIndex(vertexIndexMap, vertices[k]))
  }

  function SourcePoints(s: Skeleton): seq<Point3>
    requires WellFormed(s)
  {
    seq(|s.edges|, e requires 0 <= e < |s.edges| => s.nodes[s.edges[e].0].point)
  }

  function TargetPoints(s: Skeleton): seq<Point3>
    requires WellFormed(s)
  {
    seq(|s.edges|, e requires 0 <= e < |s.edges| => s.nodes[s.edges[e].1].point)
  }

  /** The vertex_index_map loop: every mesh vertex maps to its own idx(). */
  method VertexIndexMap(nv: nat) returns (vertexIndexMap: map<nat, int>)
    ensures forall v: nat :: v in vertexIndexMap <==> v < nv
    ensures forall v :: v in vertexIndexMap ==> vertexIndexMap[v] == v
  {
    vertexIndexMap := map[];
    for v := 0 to nv
      invariant forall u: nat :: u in vertexIndexMap <==> u < v
      invariant forall u :: u in vertexIndexMap ==> vertexIndexMap[u] == u
    {
      vertexIndexMap := vertexIndexMap[v := v];
    }
  }

  /** The index-list loop for one skeleton vertex. */
  method CollectIndices(vertexIndexMap: map<nat, int>, vertices: seq<nat>) returns (indices: seq<int>)
    ensures indices == MappedIndices(vertexIndexMap, vertices)
  {
    indices := [];
    for k := 0 to |vertices|
      invariant indices == MappedIndices(vertexIndexMap, vertices[..k])
    {
      indices := indices + [MapIndex(vertexIndexMap, vertices[k])];
    }
    assert vertices[..|vertices|] == vertices;
  }

  /** The four lists after the first `e` edges. */
  ghost predicate EdgesCopied(skeleton: Skeleton, vertexIndexMap: map<nat, int>, e: nat,
                              startPoints: seq<real>, endPoints: seq<real>,
                              startVertexIndices: seq<seq<int>>, endVertexIndices: seq<seq<int>>)
    requires WellFormed(skeleton) && e <= |skeleton.edges|
  {
    && startPoints == Flatten(SourcePoints(skeleton)[..e])
    && endPoints == Flatten(TargetPoints(skeleton)[..e])
    && |startVertexIndices| == e && |endVertexIndices| == e
    && forall d :: 0 <= d < e ==>
         && startVertexIndices[d] == MappedIndices(vertexIndexMap, skeleton.nodes[skeleton.edges[d].0].vertices)
         && endVertexIndices[d] == MappedIndices(vertexIndexMap, skeleton.nodes[skeleton.edges[d].1].vertices)
  }

  /** One round of the edge loop: the coordinates of edge e's source and
      target, then the index lists of both. */
  method CopyEdge(skeleton: Skeleton, vertexIndexMap: map<nat, int>, e: nat,
                  startPoints: seq<real>, endPoints: seq<real>,
                  startVertexIndices: seq<seq<int>>, endVertexIndices: seq<seq<int>>)
    returns (startPoints': seq<real>, endPoints': seq<real>,
             startVertexIndices': seq<seq<int>>, endVertexIndices': seq<seq<int>>)
    requires WellFormed(skeleton) && e < |skeleton.edges|
    requires EdgesCopied(skeleton, vertexIndexMap, e, startPoints, endPoints, startVertexIndices, endVertexIndices)
    ensures EdgesCopied(skeleton, vertexIndexMap, e + 1, startPoints', endPoints', startVertexIndices', endVertexIndices')
  {
    var start := skeleton.nodes[skeleton.edges[e].0].point;
    var end := skeleton.nodes[skeleton.edges[e].1].point;
    FlattenNext(SourcePoints(skeleton), e);
    FlattenNext(TargetPoints(skeleton), e);
    startPoints' := startPoints + [start.x, start.y, start.z];
    endPoints' := endPoints + [end.x, end.y, end.z];
    var startIndices := CollectIndices(vertexIndexMap, skeleton.nodes[skeleton.edges[e].0].vertices);
    startVertexIndices' := startVertexIndices + [startIndices];
    var endIndices := CollectIndices(vertexIndexMap, skeleton.nodes[skeleton.edges[e].1].vertices);
    endVertexIndices' := endVertexIndices + [endIndices];
  }

  /** A vertex of the mesh keeps its own number through the index map. */
  lemma MappedOwnNumbers(vertexIndexMap: map<nat, int>, nv: nat, vertices: seq<nat>)
    requires forall v: nat :: v in vertexIndexMap <==> v < nv
    requires forall v :: v in vertexIndexMap ==> vertexIndexMap[v] == v
    ensures |MappedIndices(vertexIndexMap, vertices)| == |vertices|
    ensures forall k :: 0 <= k < |vertices| ==>
              MappedIndices(vertexIndexMap, vertices)[k] == if vertices[k] < nv then vertices[k] else 0
  {
  }

  /** pmp_mesh_skeleton after the contraction, for a mesh of nv vertices: per
      skeleton edge, in edge order, three coordinates of its source and of its
      target, and the mesh vertex numbers contracted into each. */
  method MeshSkeleton(nv: nat, skeleton: Skeleton)
    returns (startPoints: seq<real>, endPoints: seq<real>,
             startVertexIndices: seq<seq<int>>, endVertexIndices: seq<seq<int>>)
    requires WellFormed(skeleton)
    ensures startPoints == Flatten(SourcePoints(skeleton)) && endPoints == Flatten(TargetPoints(skeleton))
    ensures |startVertexIndices| == |skeleton.edges| && |endVertexIndices| == |skeleton.edges|
    ensures forall e :: 0 <= e < |skeleton.edges| ==>
              var source := skeleton.nodes[skeleton.edges[e].0].vertices;
              var target := skeleton.nodes[skeleton.edges[e].1].vertices;
              && |startVertexIndices[e]| == |source| && |endVertexIndices[e]| == |target|
              // a vertex number the mesh does not have is looked up as 0
              && (forall k :: 0 <= k < |source| ==> startVertexIndices[e][k] == if source[k] < nv then source[k] else 0)
              && (forall k :: 0 <= k < |target| ==> endVertexIndices[e][k] == if target[k] < nv then target[k] else 0)
  {
    var vertexIndexMap := VertexIndexMap(nv);
    startPoints, endPoints := [], [];
    startVertexIndices, endVertexIndices := [], [];
    for e := 0 to |skeleton.edges|
      invariant EdgesCopied(skeleton, vertexIndexMap, e, startPoints, endPoints, startVertexIndices, endVertexIndices)
    {
      startPoints, endPoints, startVertexIndices, endVertexIndices :=
        CopyEdge(skeleton, vertexIndexMap, e, startPoints, endPoints, startVertexIndices, endVertexIndices);
    }
    assert SourcePoints(skeleton)[..|skeleton.edges|] == SourcePoints(skeleton);
    assert TargetPoints(skeleton)[..|skeleton.edges|] == TargetPoints(skeleton);
    forall e | 0 <= e < |skeleton.edges|
      ensures var source := skeleton.nodes[skeleton.edges[e].0].vertices;
              |startVertexIndices[e]| == |source| &&
              forall k :: 0 <= k < |source| ==> startVertexIndices[e][k] == if source[k] < nv then source[k] else 0
      ensures var target := skeleton.nodes[skeleton.edges[e].1].vertices;
              |endVertexIndices[e]| == |target| &&
              forall k :: 0 <= k < |target| ==> endVertexIndices[e][k] == if target[k] < nv then target[k] else 0
    {
      MappedOwnNumbers(vertexIndexMap, nv, skeleton.nodes[skeleton.edges[e].0].vertices);
      MappedOwnNumbers(vertexIndexMap, nv, skeleton.nodes[skeleton.edges[e].1].vertices);
    }
  }

  /** The coordinate lists have three entries per edge, and the k-th point read
      back from them is the k-th edge's source (target). */
  lemma FlatListsHoldEdgeEnds(s: Skeleton)
    requires WellFormed(s)
    ensures |Flatten(SourcePoints(s))| == 3 * |s.edges| && |Flatten(TargetPoints(s))| == 3 * |s.edges|
    ensures Unflatten(Flatten(SourcePoints(s))) == SourcePoints(s)
    ensures Unflatten(Flatten(TargetPoints(s))) == TargetPoints(s)
  {
    FlattenLength(SourcePoints(s));
    FlattenLength(TargetPoints(s));
    UnflattenFlatten(SourcePoints(s));
    UnflattenFlatten(TargetPoints(s));
  }
}
