/** The Python layer of src/compas_cgal/straight_skeleton_2.py: orientation
    checks on the input polygons, the reversal that repairs mis-oriented
    loops in the with-holes offset, the weight-count check, the dispatch on
    the sign of the offset, the grouping of offset loops, and the graph built
    from the native skeleton arrays. The native skeleton and offset builders
    are CGAL's and enter as function parameters. */
module StraightSkeleton {
  import opened Types

  type Loop = seq<Point3>

  // ---------------------------------------------------------------------------
  // Orientation
  // ---------------------------------------------------------------------------

  /** The z of the cross product of two position vectors. */
  function Cross(a: Point3, b: Point3): real
  {
    a.x * b.y - b.x * a.y
  }

  /** The sum of Cross over consecutive points of an open chain. */
  function Chain(p: Loop): real
  {
    if |p| < 2 then 0.0 else Chain(p[..|p| - 1]) + Cross(p[|p| - 2], p[|p| - 1])
  }

  /** Twice the signed (shoelace) area of the closed loop in the xy-plane. For
      a loop in that plane, normal_polygon's z is a positive multiple of it. */
  function Area2(p: Loop): real
  {
    if |p| < 2 then 0.0 else Chain(p) + Cross(p[|p| - 1], p[0])
  }

  /** The unit normal of a loop in the xy-plane: [0, 0, 1], [0, 0, -1], or
      none for a loop of zero area. */
  datatype Normal = Up | Down | Degenerate

  function NormalOf(p: Loop): Normal
  {
    var a := Area2(p);
    if a > 0.0 then Up else if a < 0.0 then Down else Degenerate
  }

  function Reverse(p: Loop): (r: Loop)
    ensures |r| == |p|
  {
    seq(|p|, i requires 0 <= i < |p| => p[|p| - 1 - i])
  }

  lemma {:induction false} ChainPrepend(x: Point3, p: Loop)
    requires |p| >= 1
    ensures Chain([x] + p) == Cross(x, p[0]) + Chain(p)
  {
    if |p| >= 2 {
      var init := p[..|p| - 1];
      ChainPrepend(x, init);
      assert ([x] + p)[..|p|] == [x] + init;
    }
  }

  lemma {:induction false} ChainReverse(p: Loop)
    ensures Chain(Reverse(p)) == -Chain(p)
  {
    if |p| >= 2 {
      var init := p[..|p| - 1];
      var y := p[|p| - 1];
      ChainReverse(init);
      assert Reverse(p) == [y] + Reverse(init);
      ChainPrepend(y, Reverse(init));
      assert Reverse(init)[0] == p[|p| - 2];
      assert Chain(p) == Chain(init) + Cross(p[|p| - 2], y);
      assert Cross(y, p[|p| - 2]) == -Cross(p[|p| - 2], y);
    }
  }

  /** Reversing a loop negates its signed area. */
  lemma ReverseNegatesArea(p: Loop)
    ensures Area2(Reverse(p)) == -Area2(p)
  {
    ChainReverse(p);
  }

  /** Reversing a loop flips its normal; a degenerate loop stays degenerate. */
  lemma ReverseFlipsNormal(p: Loop)
    ensures NormalOf(p) == Up <==> NormalOf(Reverse(p)) == Down
    ensures NormalOf(p) == Down <==> NormalOf(Reverse(p)) == Up
    ensures NormalOf(p) == Degenerate <==> NormalOf(Reverse(p)) == Degenerate
  {
    ReverseNegatesArea(p);
  }

  lemma ReverseReverse(p: Loop)
    ensures Reverse(Reverse(p)) == p
  {
  }

  // ---------------------------------------------------------------------------
  // Errors and native results
  // ---------------------------------------------------------------------------

  /** The ValueErrors raised (and the IndexError of an offset group with no
      outer loop). */
  datatype SkeletonError =
    | OuterNotUp(normal: Normal)
    | HoleNotDown(index: nat, normal: Normal)
    | WeightCountMismatch(weights: nat, points: nat)
    | MissingOuterLoop

  /** The arrays returned by the native skeleton builders: points, their
      indices, edges as index pairs and one type per edge. */
  datatype SkeletonData = SkeletonData(points: seq<Point3>, indices: seq<int>, edges: seq<(int, int)>, edgeTypes: seq<int>)

  type Skeletonizer = Loop -> SkeletonData
  type HolesSkeletonizer = (Loop, seq<Loop>) -> SkeletonData
  type Offsetter = (Loop, real) -> seq<Loop>
  type HolesOffsetter = (Loop, seq<Loop>, real) -> seq<seq<Loop>>
  type WeightedOffsetter = (Loop, real, seq<real>) -> seq<Loop>

  // ---------------------------------------------------------------------------
  // graph_from_skeleton_data
  // ---------------------------------------------------------------------------

  datatype Tag = InnerBisector | Bisector | Boundary

  /** Edge type 0 is an inner bisector, 1 a bisector, anything else boundary. */
  function TagOf(edgeType: int): Tag
  {
    if edgeType == 0 then InnerBisector else if edgeType == 1 then Bisector else Boundary
  }

  /** A compas Graph: node coordinates by key, and the attributes set on
      each (directed) edge. A node that add_edge creates gets the default
      coordinates 0, 0, 0. */
  datatype Graph = Graph(nodes: map<int, Point3>, edges: map<(int, int), set<Tag>>)

  const Origin := Point3(0.0, 0.0, 0.0)

  /** The nodes added by the first loop: the last point given for each key. */
  function NodePoints(points: seq<Point3>, indices: seq<int>, n: nat): map<int, Point3>
    requires n <= |points| && n <= |indices|
  {
    if n == 0 then map[] else NodePoints(points, indices, n - 1)[indices[n - 1] := points[n - 1]]
  }

  /** add_edge adds either endpoint that is not yet a node. */
  function WithEndpoints(nodes: map<int, Point3>, edges: seq<(int, int)>, n: nat): map<int, Point3>
    requires n <= |edges|
  {
    if n == 0 then nodes
    else
      var m := WithEndpoints(nodes, edges, n - 1);
      var (u, v) := edges[n - 1];
      var m' := if u in m then m else m[u := Origin];
      if v in m' then m' else m'[v := Origin]
  }

  /** The tags set by the second loop: an edge listed again keeps its earlier
      attributes and gains the new one. */
  function EdgeTags(edges: seq<(int, int)>, edgeTypes: seq<int>, n: nat): map<(int, int), set<Tag>>
    requires n <= |edges| && n <= |edgeTypes|
  {
    if n == 0 then map[]
    else
      var m := EdgeTags(edges, edgeTypes, n - 1);
      var e := edges[n - 1];
      m[e := (if e in m then m[e] else {}) + {TagOf(edgeTypes[n - 1])}]
  }

  /** graph_from_skeleton_data: zip truncates each pair of lists to the
      shorter one; nodes first, then edges with their tags. */
  method GraphFromSkeletonData(points: seq<Point3>, indices: seq<int>, edges: seq<(int, int)>, edgeTypes: seq<int>)
    returns (graph: Graph)
    ensures var nNodes := Min(|points|, |indices|);
            var nEdges := Min(|edges|, |edgeTypes|);
            graph == Graph(WithEndpoints(NodePoints(points, indices, nNodes), edges, nEdges),
                           EdgeTags(edges, edgeTypes, nEdges))
  {
    var nNodes := Min(|points|, |indices|);
    var nEdges := Min(|edges|, |edgeTypes|);
    graph := Graph(map[], map[]);
    for k := 0 to nNodes
      invariant graph == Graph(NodePoints(points, indices, k), map[])
    {
      var pt, i := points[k], indices[k];
      graph := graph.(nodes := graph.nodes[i := pt]);
    }
    var nodes0 := graph.nodes;
    for k := 0 to nEdges
      invariant graph == Graph(WithEndpoints(nodes0, edges, k), EdgeTags(edges, edgeTypes, k))
    {
      var (u, v) := edges[k];
      var nodes := graph.nodes;
      if u !in nodes {
        nodes := nodes[u := Origin];
      }
      if v !in nodes {
        nodes := nodes[v := Origin];
      }
      var tags := if (u, v) in graph.edges then graph.edges[(u, v)] else {};
      graph := Graph(nodes, graph.edges[(u, v) := tags + {TagOf(edgeTypes[k])}]);
    }
  }

  /** Each node key gets the point of its last occurrence; a key given once
      gets its own point. */
  lemma {:induction false} NodePointsLast(points: seq<Point3>, indices: seq<int>, n: nat, k: nat)
    requires n <= |points| && n <= |indices| && k < n
    requires forall l :: k < l < n ==> indices[l] != indices[k]
    ensures indices[k] in NodePoints(points, indices, n)
    ensures NodePoints(points, indices, n)[indices[k]] == points[k]
  {
    if k < n - 1 {
      NodePointsLast(points, indices, n - 1, k);
    }
  }

  lemma {:induction false} NodePointsKeys(points: seq<Point3>, indices: seq<int>, n: nat)
    requires n <= |points| && n <= |indices|
    ensures forall key :: key in NodePoints(points, indices, n) <==> key in indices[..n]
  {
    if n > 0 {
      NodePointsKeys(points, indices, n - 1);
      assert indices[..n] == indices[..n - 1] + [indices[n - 1]];
    }
  }

  /** The endpoints of the first n edges. */
  function Endpoints(edges: seq<(int, int)>, n: nat): set<int>
    requires n <= |edges|
  {
    if n == 0 then {} else Endpoints(edges, n - 1) + {edges[n - 1].0, edges[n - 1].1}
  }

  /** Adding endpoints never changes an existing node; the new keys are the
      edge endpoints, at the origin. */
  lemma {:induction false} WithEndpointsKeeps(nodes: map<int, Point3>, edges: seq<(int, int)>, n: nat)
    requires n <= |edges|
    ensures WithEndpoints(nodes, edges, n).Keys == nodes.Keys + Endpoints(edges, n)
    ensures forall key :: key in WithEndpoints(nodes, edges, n) ==>
              WithEndpoints(nodes, edges, n)[key] == if key in nodes then nodes[key] else Origin
  {
    if n > 0 {
      WithEndpointsKeeps(nodes, edges, n - 1);
    }
  }

  /** The tags of the positions below n that list edge e. */
  function TagsFor(edges: seq<(int, int)>, edgeTypes: seq<int>, e: (int, int), n: nat): set<Tag>
    requires n <= |edges| && n <= |edgeTypes|
  {
    if n == 0 then {}
    else TagsFor(edges, edgeTypes, e, n - 1) + (if edges[n - 1] == e then {TagOf(edgeTypes[n - 1])} else {})
  }

  /** The graph holds exactly the listed edges, each with the tags of all the
      positions that list it. */
  lemma {:induction false} EdgeTagsExactly(edges: seq<(int, int)>, edgeTypes: seq<int>, n: nat)
    requires n <= |edges| && n <= |edgeTypes|
    ensures forall e :: e in EdgeTags(edges, edgeTypes, n) <==> e in edges[..n]
    ensures forall e :: e in EdgeTags(edges, edgeTypes, n) ==>
              EdgeTags(edges, edgeTypes, n)[e] == TagsFor(edges, edgeTypes, e, n)
  {
    if n > 0 {
      EdgeTagsExactly(edges, edgeTypes, n - 1);
      assert edges[..n] == edges[..n - 1] + [edges[n - 1]];
      forall e | e in EdgeTags(edges, edgeTypes, n)
        ensures EdgeTags(edges, edgeTypes, n)[e] == TagsFor(edges, edgeTypes, e, n)
      {
        if e != edges[n - 1] && e !in edges[..n - 1] {
          assert false;
        }
        if e == edges[n - 1] && e !in edges[..n - 1] {
          TagsForAbsent(edges, edgeTypes, e, n - 1);
        }
      }
    }
  }

  lemma {:induction false} TagsForAbsent(edges: seq<(int, int)>, edgeTypes: seq<int>, e: (int, int), n: nat)
    requires n <= |edges| && n <= |edgeTypes| && e !in edges[..n]
    ensures TagsFor(edges, edgeTypes, e, n) == {}
  {
    if n > 0 {
      assert edges[..n - 1] == edges[..n][..n - 1];
      TagsForAbsent(edges, edgeTypes, e, n - 1);
    }
  }

  /** An edge listed once carries exactly one tag, the one of its type;
      every listed edge carries at least its own type's tag. */
  lemma {:induction false} TagsForListed(edges: seq<(int, int)>, edgeTypes: seq<int>, n: nat, k: nat)
    requires n <= |edges| && n <= |edgeTypes| && k < n
    ensures TagOf(edgeTypes[k]) in TagsFor(edges, edgeTypes, edges[k], n)
    ensures (forall l :: 0 <= l < n && l != k ==> edges[l] != edges[k]) ==>
              TagsFor(edges, edgeTypes, edges[k], n) == {TagOf(edgeTypes[k])}
  {
    if k < n - 1 {
      TagsForListed(edges, edgeTypes, n - 1, k);
    } else if forall l :: 0 <= l < n && l != k ==> edges[l] != edges[k] {
      TagsForAbsent(edges, edgeTypes, edges[k], n - 1);
    }
  }

  // ---------------------------------------------------------------------------
  // Skeletons
  // ---------------------------------------------------------------------------

  datatype SkeletonOutput = AsGraph(graph: Graph) | AsArrays(data: SkeletonData)

  /** The graph graph_from_skeleton_data builds from the skeleton arrays. */
  function GraphOf(data: SkeletonData): Graph
  {
    Graph(WithEndpoints(NodePoints(data.points, data.indices, Min(|data.points|, |data.indices|)),
                        data.edges, Min(|data.edges|, |data.edgeTypes|)),
          EdgeTags(data.edges, data.edgeTypes, Min(|data.edges|, |data.edgeTypes|)))
  }

  method Package(data: SkeletonData, asGraph: bool) returns (out: SkeletonOutput)
    ensures asGraph ==> out == AsGraph(GraphOf(data))
    ensures !asGraph ==> out == AsArrays(data)
  {
    if asGraph {
      var g := GraphFromSkeletonData(data.points, data.indices, data.edges, data.edgeTypes);
      out := AsGraph(g);
    } else {
      out := AsArrays(data);
    }
  }

  /** interior_straight_skeleton: the outer loop must turn counter-clockwise. */
  method InteriorStraightSkeleton(points: Loop, asGraph: bool, skeleton: Skeletonizer)
    returns (r: Result<SkeletonOutput, SkeletonError>)
    ensures NormalOf(points) != Up <==> r.Failure?
    ensures r.Failure? ==> r.error == OuterNotUp(NormalOf(points))
    ensures r.Success? && !asGraph ==> r.value == AsArrays(skeleton(points))
    ensures r.Success? && asGraph ==> r.value == AsGraph(GraphOf(skeleton(points)))
  {
    var normal := NormalOf(points);
    if normal != Up {
      return Failure(OuterNotUp(normal));
    }
    var out := Package(skeleton(points), asGraph);
    r := Success(out);
  }

  /** The first hole whose normal is not [0, 0, -1], if any. */
  function FirstBadHole(holes: seq<Loop>, from: nat): (r: Option<nat>)
    requires from <= |holes|
    ensures r.Some? ==> from <= r.value < |holes| && NormalOf(holes[r.value]) != Down &&
                        forall j :: from <= j < r.value ==> NormalOf(holes[j]) == Down
    ensures r.None? ==> forall j :: from <= j < |holes| ==> NormalOf(holes[j]) == Down
    decreases |holes| - from
  {
    if from == |holes| then None
    else if NormalOf(holes[from]) != Down then Some(from)
    else FirstBadHole(holes, from + 1)
  }

  /** interior_straight_skeleton_with_holes: the outer loop must turn
      counter-clockwise and every hole clockwise; the first failure raises,
      naming the hole. */
  method InteriorStraightSkeletonWithHoles(points: Loop, holes: seq<Loop>, asGraph: bool, skeleton: HolesSkeletonizer)
    returns (r: Result<SkeletonOutput, SkeletonError>)
    ensures NormalOf(points) != Up ==> r == Failure(OuterNotUp(NormalOf(points)))
    ensures NormalOf(points) == Up && FirstBadHole(holes, 0).Some? ==>
              r == Failure(HoleNotDown(FirstBadHole(holes, 0).value, NormalOf(holes[FirstBadHole(holes, 0).value])))
    ensures NormalOf(points) == Up && FirstBadHole(holes, 0).None? ==>
              && r.Success?
              && (!asGraph ==> r.value == AsArrays(skeleton(points, holes)))
              && (asGraph ==> r.value == AsGraph(GraphOf(skeleton(points, holes))))
  {
    var normal := NormalOf(points);
    if normal != Up {
      return Failure(OuterNotUp(normal));
    }
    var H: seq<Loop> := [];
    for i := 0 to |holes|
      invariant H == holes[..i]
      invariant FirstBadHole(holes, 0) == FirstBadHole(holes, i)
    {
      var normalHole := NormalOf(holes[i]);
      if normalHole != Down {
        return Failure(HoleNotDown(i, normalHole));
      }
      H := H + [holes[i]];
    }
    assert H == holes;
    var out := Package(skeleton(points, H), asGraph);
    r := Success(out);
  }

  // ---------------------------------------------------------------------------
  // Offsets
  // ---------------------------------------------------------------------------

  /** Drop the first loop: the outer offsets start with a bounding box. */
  function DropBox<T>(loops: seq<T>): (r: seq<T>)
    ensures |loops| >= 1 ==> |r| == |loops| - 1 && forall k :: 0 <= k < |r| ==> r[k] == loops[k + 1]
    ensures loops == [] ==> r == []
  {
    if loops == [] then [] else loops[1..]
  }

  /** offset_polygon: counter-clockwise outer loop required; a negative offset
      builds the outer offset at |offset| and drops its bounding box, any
      other the inner offset. */
  function OffsetPolygon(points: Loop, offset: real, inner: Offsetter, outer: Offsetter): (r: Result<seq<Loop>, SkeletonError>)
    ensures NormalOf(points) != Up <==> r.Failure?
    ensures r.Failure? ==> r.error == OuterNotUp(NormalOf(points))
    ensures r.Success? && offset < 0.0 ==> r.value == DropBox(outer(points, -offset))
    ensures r.Success? && offset >= 0.0 ==> r.value == inner(points, offset)
  {
    var normal := NormalOf(points);
    if normal != Up then Failure(OuterNotUp(normal))
    else if offset < 0.0 then Success(DropBox(outer(points, -offset)))
    else Success(inner(points, offset))
  }

  /** weighted_offset_polygon: the orientation is checked before the weight
      count, and there must be one weight per point. */
  function WeightedOffsetPolygon(points: Loop, offset: real, weights: seq<real>,
                                 inner: WeightedOffsetter, outer: WeightedOffsetter): (r: Result<seq<Loop>, SkeletonError>)
    ensures r.Failure? <==> NormalOf(points) != Up || |weights| != |points|
    ensures NormalOf(points) != Up ==> r == Failure(OuterNotUp(NormalOf(points)))
    ensures NormalOf(points) == Up && |weights| != |points| ==> r == Failure(WeightCountMismatch(|weights|, |points|))
    ensures r.Success? && offset < 0.0 ==> r.value == DropBox(outer(points, -offset, weights))
    ensures r.Success? && offset >= 0.0 ==> r.value == inner(points, offset, weights)
  {
    var normal := NormalOf(points);
    if normal != Up then Failure(OuterNotUp(normal))
    else if |weights| != |points| then Failure(WeightCountMismatch(|weights|, |points|))
    else if offset < 0.0 then Success(DropBox(outer(points, -offset, weights)))
    else Success(inner(points, offset, weights))
  }

  /** A compas Polygon object, whose point list the with-holes offset may
      reverse in place. */
  class PolygonObj {
    var points: Loop

    constructor (points: Loop)
      ensures this.points == points
    {
      this.points := points;
    }
  }

  /** A loop as the with-holes offset repairs it: reversed when its normal
      is `wrong`. */
  function Repaired(p: Loop, wrong: Normal): Loop
  {
    if NormalOf(p) == wrong then Reverse(p) else p
  }

  /** A repaired loop has the wanted normal unless it has no normal at all. */
  lemma RepairedOrientation(p: Loop)
    ensures NormalOf(p) != Degenerate ==> NormalOf(Repaired(p, Down)) == Up && NormalOf(Repaired(p, Up)) == Down
    ensures NormalOf(p) == Degenerate ==> NormalOf(Repaired(p, Down)) == Degenerate && NormalOf(Repaired(p, Up)) == Degenerate
  {
    ReverseFlipsNormal(p);
  }

  /** The first hole without a normal, if any. */
  function FirstDegenerateHole(holes: seq<Loop>, from: nat): (r: Option<nat>)
    requires from <= |holes|
    ensures r.Some? ==> from <= r.value < |holes| && NormalOf(holes[r.value]) == Degenerate &&
                        forall j :: from <= j < r.value ==> NormalOf(holes[j]) != Degenerate
    ensures r.None? ==> forall j :: from <= j < |holes| ==> NormalOf(holes[j]) != Degenerate
    decreases |holes| - from
  {
    if from == |holes| then None
    else if NormalOf(holes[from]) == Degenerate then Some(from)
    else FirstDegenerateHole(holes, from + 1)
  }

  /** The loops of one result group: the first is the polygon, the rest its
      holes; a group with no loop raises. */
  function Grouped(groups: seq<seq<Loop>>): (r: Result<seq<(Loop, seq<Loop>)>, SkeletonError>)
    ensures r.Failure? <==> exists g :: 0 <= g < |groups| && groups[g] == []
    ensures r.Failure? ==> r.error == MissingOuterLoop
    ensures r.Success? ==> (|r.value| == |groups| &&
              forall g :: 0 <= g < |groups| ==> r.value[g] == (groups[g][0], groups[g][1..]))
  {
    if groups == [] then Success([])
    else
      var init := Grouped(groups[..|groups| - 1]);
      var last := groups[|groups| - 1];
      if last == [] then Failure(MissingOuterLoop)
      else if init.Failure? then init
      else Success(init.value + [(last[0], last[1..])])
  }

  /** The current point lists of the hole objects. */
  function PointLists(holes: seq<PolygonObj>): seq<Loop>
    reads holes
  {
    seq(|holes|, i requires 0 <= i < |holes| reads holes => holes[i].points)
  }

  /** The hole loop of offset_polygon_with_holes: each hole turning
      counter-clockwise is reversed IN PLACE (the caller's Polygon object is
      changed), then each must turn clockwise. Only a hole of zero area fails. */
  method RepairHoles(holes: seq<PolygonObj>) returns (r: Result<seq<Loop>, SkeletonError>)
    modifies holes
    ensures forall i :: 0 <= i < |holes| ==>
              holes[i].points == old(holes[i].points) || holes[i].points == Repaired(old(holes[i].points), Up)
    ensures FirstDegenerateHole(old(PointLists(holes)), 0).Some? <==> r.Failure?
    ensures r.Failure? ==> r.error == HoleNotDown(FirstDegenerateHole(old(PointLists(holes)), 0).value, Degenerate)
    // on failure at hole k, the objects named before k have been repaired
    // and every other object is untouched
    ensures r.Failure? ==> forall i :: 0 <= i < |holes| ==>
              holes[i].points == (if holes[i] in holes[..FirstDegenerateHole(old(PointLists(holes)), 0).value]
                                  then Repaired(old(holes[i].points), Up) else old(holes[i].points))
    ensures r.Success? ==> r.value == PointLists(holes)
    ensures r.Success? ==> (forall i :: 0 <= i < |holes| ==>
              holes[i].points == Repaired(old(holes[i].points), Up) && NormalOf(holes[i].points) == Down)
  {
    ghost var before := PointLists(holes);
    RepairStarts(holes, before);
    r := RepairLoop(holes, before);
    RepairFacts(holes, before, r);
  }

  /** What the hole loop leaves behind, over the lists `before` it started
      from: every list as it was or repaired; a failure at the first hole
      without a normal, leaving the objects named before it repaired and
      the others untouched; on success every hole repaired and clockwise,
      and the result their point lists. */
  ghost predicate RepairOutcome(holes: seq<PolygonObj>, before: seq<Loop>, r: Result<seq<Loop>, SkeletonError>)
    reads holes
  {
    && |before| == |holes|
    && (forall j :: 0 <= j < |holes| ==> holes[j].points == before[j] || holes[j].points == Repaired(before[j], Up))
    && (FirstDegenerateHole(before, 0).Some? <==> r.Failure?)
    && (r.Failure? ==> r.error == HoleNotDown(FirstDegenerateHole(before, 0).value, Degenerate))
    && (r.Failure? ==> forall j :: 0 <= j < |holes| ==>
          holes[j].points == (if holes[j] in holes[..FirstDegenerateHole(before, 0).value]
                              then Repaired(before[j], Up) else before[j]))
    && (r.Success? ==> r.value == PointLists(holes))
    && (r.Success? ==> forall j :: 0 <= j < |holes| ==>
          holes[j].points == Repaired(before[j], Up) && NormalOf(holes[j].points) == Down)
  }

  lemma RepairFacts(holes: seq<PolygonObj>, before: seq<Loop>, r: Result<seq<Loop>, SkeletonError>)
    requires RepairOutcome(holes, before, r)
    ensures |before| == |holes|
    ensures forall j :: 0 <= j < |holes| ==> holes[j].points == before[j] || holes[j].points == Repaired(before[j], Up)
    ensures FirstDegenerateHole(before, 0).Some? <==> r.Failure?
    ensures r.Failure? ==> r.error == HoleNotDown(FirstDegenerateHole(before, 0).value, Degenerate)
    ensures r.Failure? ==> forall j :: 0 <= j < |holes| ==>
              holes[j].points == (if holes[j] in holes[..FirstDegenerateHole(before, 0).value]
                                  then Repaired(before[j], Up) else before[j])
    ensures r.Success? ==> r.value == PointLists(holes)
    ensures r.Success? ==> forall j :: 0 <= j < |holes| ==>
              holes[j].points == Repaired(before[j], Up) && NormalOf(holes[j].points) == Down
  {
  }

  /** The hole loop itself. */
  method RepairLoop(holes: seq<PolygonObj>, ghost before: seq<Loop>) returns (r: Result<seq<Loop>, SkeletonError>)
    requires RepairedUpTo(holes, before, 0)
    modifies holes
    ensures RepairOutcome(holes, before, r)
  {
    hide NormalOf, Repaired;
    var H: seq<Loop> := [];
    for i := 0 to |holes|
      invariant RepairedUpTo(holes, before, i)
      invariant |H| == i && forall j :: 0 <= j < i ==> H[j] == holes[j].points
      invariant FirstDegenerateHole(before, 0) == FirstDegenerateHole(before, i)
    {
      var ok, repaired := RepairHole(holes, i, before);
      if !ok {
        assert FirstDegenerateHole(before, i) == Some(i);
        StoppedAt(holes, before, i);
        return Failure(HoleNotDown(i, Degenerate));
      }
      assert FirstDegenerateHole(before, i) == FirstDegenerateHole(before, i + 1);
      H := H + [repaired];
    }
    r := Success(H);
  }

  /** Progress of the hole loop over the lists `before` it started from:
      entries naming the same object started alike, every list is as it was
      or repaired, the first `i` are repaired and turn clockwise, and an
      object not named among the first `i` is untouched. */
  ghost predicate RepairedUpTo(holes: seq<PolygonObj>, before: seq<Loop>, i: nat)
    reads holes
  {
    && |before| == |holes|
    && i <= |holes|
    && (forall j, k :: 0 <= j < |holes| && 0 <= k < |holes| && holes[j] == holes[k] ==> before[j] == before[k])
    && (forall j :: 0 <= j < |holes| ==> holes[j].points == before[j] || holes[j].points == Repaired(before[j], Up))
    && (forall j :: 0 <= j < i ==> holes[j].points == Repaired(before[j], Up) && NormalOf(holes[j].points) == Down)
    && (forall j :: 0 <= j < |holes| && holes[j] !in holes[..i] ==> holes[j].points == before[j])
  }

  /** Where the loop stops at hole `k`: an object named before `k` has been
      repaired (through its first entry), any other object is as it was. */
  lemma StoppedAt(holes: seq<PolygonObj>, before: seq<Loop>, k: nat)
    requires RepairedUpTo(holes, before, k)
    ensures forall j :: 0 <= j < |holes| ==>
              holes[j].points == (if holes[j] in holes[..k] then Repaired(before[j], Up) else before[j])
  {
    forall j | 0 <= j < |holes|
      ensures holes[j].points == (if holes[j] in holes[..k] then Repaired(before[j], Up) else before[j])
    {
      if holes[j] in holes[..k] {
        var m :| 0 <= m < k && holes[..k][m] == holes[j];
        assert holes[m] == holes[j];
      }
    }
  }

  lemma RepairStarts(holes: seq<PolygonObj>, before: seq<Loop>)
    requires before == PointLists(holes)
    ensures RepairedUpTo(holes, before, 0)
  {
  }

  /** One step of the hole loop on hole i: reverse it when it turns
      counter-clockwise, then report whether it now turns clockwise (it may
      have been repaired already through another entry naming the same
      object). */
  method RepairHole(holes: seq<PolygonObj>, i: nat, ghost before: seq<Loop>) returns (ok: bool, repaired: Loop)
    requires i < |holes| && RepairedUpTo(holes, before, i)
    modifies holes[i]
    ensures ok <==> NormalOf(before[i]) != Degenerate
    ensures !ok ==> unchanged(holes[i]) && RepairedUpTo(holes, before, i)
    ensures ok ==> RepairedUpTo(holes, before, i + 1) && repaired == Repaired(before[i], Up) == holes[i].points
  {
    hide NormalOf;
    var hole := holes[i];
    ghost var original := before[i];
    RepairedOrientation(original);
    ReverseFlipsNormal(original);
    ReverseReverse(original);
    var normalHole := NormalOf(hole.points);
    if normalHole == Up {
      hole.points := Reverse(hole.points);
      normalHole := Down;
    }
    ok := normalHole == Down;
    repaired := hole.points;
    if ok {
      forall j | 0 <= j < |holes| && holes[j] == hole
        ensures before[j] == original
      {
      }
      assert holes[..i + 1] == holes[..i] + [hole];
    }
  }

  /** The native offset called on the repaired outer loop: outer variant at
      |offset| for a negative offset, inner variant otherwise. */
  function Dispatched(points: Loop, H: seq<Loop>, offset: real, inner: HolesOffsetter, outer: HolesOffsetter): seq<seq<Loop>>
  {
    var V := Repaired(points, Down);
    if offset < 0.0 then outer(V, H, -offset) else inner(V, H, offset)
  }

  /** offset_polygon_with_holes: a clockwise outer loop is reversed (on a
      copy) and a counter-clockwise hole reversed in place instead of being
      rejected; then the orientations are checked, the offset dispatched on
      its sign (no bounding box is dropped here), and the loops grouped. */
  method OffsetPolygonWithHoles(points: Loop, holes: seq<PolygonObj>, offset: real,
                                inner: HolesOffsetter, outer: HolesOffsetter)
    returns (r: Result<seq<(Loop, seq<Loop>)>, SkeletonError>)
    modifies holes
    ensures NormalOf(points) == Degenerate ==> r == Failure(OuterNotUp(Degenerate)) && unchanged(holes)
    // every hole is left as it was or reversed out of counter-clockwise order;
    // on success every hole has been repaired and turns clockwise
    ensures forall i :: 0 <= i < |holes| ==>
              holes[i].points == old(holes[i].points) || holes[i].points == Repaired(old(holes[i].points), Up)
    ensures r.Success? ==> forall i :: 0 <= i < |holes| ==>
              holes[i].points == Repaired(old(holes[i].points), Up) && NormalOf(holes[i].points) == Down
    ensures NormalOf(points) != Degenerate ==>
              (r.Failure? && r.error.HoleNotDown?) || r == Grouped(Dispatched(points, PointLists(holes), offset, inner, outer))
    ensures NormalOf(points) != Degenerate ==>
              (FirstDegenerateHole(old(PointLists(holes)), 0).Some? <==> r.Failure? && r.error.HoleNotDown?)
    // a hole of zero area stops the loop there: the objects named before it
    // have been repaired and every other object is untouched
    ensures NormalOf(points) != Degenerate && r.Failure? && r.error.HoleNotDown? ==>
              r.error == HoleNotDown(FirstDegenerateHole(old(PointLists(holes)), 0).value, Degenerate) &&
              forall i :: 0 <= i < |holes| ==>
                holes[i].points == (if holes[i] in holes[..FirstDegenerateHole(old(PointLists(holes)), 0).value]
                                    then Repaired(old(holes[i].points), Up) else old(holes[i].points))
  {
    var V := points;
    var normal := NormalOf(V);
    RepairedOrientation(points);
    if normal == Down {
      V := Reverse(V);
      normal := Up;
    }
    if normal != Up {
      return Failure(OuterNotUp(normal));
    }
    var repaired := RepairHoles(holes);
    if repaired.Failure? {
      return Failure(repaired.error);
    }
    var H := repaired.value;
    var groups := if offset < 0.0 then outer(V, H, -offset) else inner(V, H, offset);
    r := Grouped(groups);
  }
}
