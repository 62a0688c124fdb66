/** src/straight_skeleton_2.cpp (the older native entry point): the input
    polygon built from the rows of V, and the walk over the skeleton's
    halfedges that emits each bisector once. The skeleton is CGAL's; a
    vertex's memory address, which orders the vertices, is modelled as an
    integer per vertex. */
module StraightSkeletonNative {
  import opened Types

  datatype Halfedge = Halfedge(vertex: nat, opposite: nat, isBisector: bool)

  /** The skeleton's vertices (point and address) and its halfedges. */
  datatype Skeleton = Skeleton(points: seq<Point2>, address: seq<int>, halfedges: seq<Halfedge>)

  /** A halfedge structure: opposite is an involution without fixed points,
      a halfedge and its opposite agree on being a bisector, and distinct
      vertices have distinct addresses. */
  ghost predicate WellFormed(s: Skeleton)
  {
    && |s.address| == |s.points|
    && (forall h :: 0 <= h < |s.halfedges| ==>
          && s.halfedges[h].vertex < |s.points|
          && s.halfedges[h].opposite < |s.halfedges|
          && s.halfedges[h].opposite != h
          && s.halfedges[s.halfedges[h].opposite].opposite == h
          && s.halfedges[s.halfedges[h].opposite].isBisector == s.halfedges[h].isBisector)
    && (forall u, v :: 0 <= u < |s.points| && 0 <= v < |s.points| && u != v ==> s.address[u] != s.address[v])
  }

  /** The rows of V as polygon points (x, y), in row order. */
  method PolygonOf(V: Mat<real>) returns (poly: seq<Point2>)
    requires V.WellShaped() && V.cols >= 2
    ensures |poly| == |V.rows|
    ensures forall i :: 0 <= i < |V.rows| ==> poly[i] == Point2(V.rows[i][0], V.rows[i][1])
  {
    poly := [];
    for i := 0 to |V.rows|
      invariant |poly| == i
      invariant forall k :: 0 <= k < i ==> poly[k] == Point2(V.rows[k][0], V.rows[k][1])
    {
      poly := poly + [Point2(V.rows[i][0], V.rows[i][1])];
    }
  }

  function Source(s: Skeleton, h: nat): nat
    requires WellFormed(s) && h < |s.halfedges|
  {
    s.halfedges[h].vertex
  }

  function Target(s: Skeleton, h: nat): nat
    requires WellFormed(s) && h < |s.halfedges|
  {
    s.halfedges[s.halfedges[h].opposite].vertex
  }

  /** A halfedge is emitted when it is a bisector whose vertex lies at a
      lower address than its opposite's vertex. */
  predicate Emits(s: Skeleton, h: nat)
    requires WellFormed(s) && h < |s.halfedges|
  {
    s.halfedges[h].isBisector && s.address[Source(s, h)] < s.address[Target(s, h)]
  }

  /** The emitted halfedges among the first n, in order. */
  function EmittedBelow(s: Skeleton, n: nat): seq<nat>
    requires WellFormed(s) && n <= |s.halfedges|
  {
    if n == 0 then [] else EmittedBelow(s, n - 1) + (if Emits(s, n - 1) then [n - 1] else [])
  }

  function Lift(p: Point2): Point3
  {
    Point3(p.x, p.y, 0.0)
  }

  /** The edge a halfedge contributes: its vertex, then its opposite's vertex,
      both at z = 0. */
  function EdgeOf(s: Skeleton, h: nat): (Point3, Point3)
    requires WellFormed(s) && h < |s.halfedges|
  {
    (Lift(s.points[Source(s, h)]), Lift(s.points[Target(s, h)]))
  }

  lemma {:induction false} EmittedBelowExactly(s: Skeleton, n: nat)
    requires WellFormed(s) && n <= |s.halfedges|
    ensures forall k :: 0 <= k < |EmittedBelow(s, n)| ==> EmittedBelow(s, n)[k] < n
    ensures forall h: nat :: h in EmittedBelow(s, n) <==> h < n && Emits(s, h)
  {
    hide WellFormed, Emits;
    if n > 0 {
      EmittedBelowExactly(s, n - 1);
      var prev := EmittedBelow(s, n - 1);
      var added: seq<nat> := if Emits(s, n - 1) then [n - 1] else [];
      assert EmittedBelow(s, n) == prev + added;
      forall h: nat
        ensures h in prev + added <==> h < n && Emits(s, h)
      {
        assert h in prev + added <==> h in prev || h in added;
      }
      forall k | 0 <= k < |prev + added|
        ensures (prev + added)[k] < n
      {
        assert (prev + added)[k] in prev + added;
      }
    }
  }

  /** The halfedge loop of pmp_create_interior_straight_skeleton. */
  method CreateInteriorStraightSkeleton(s: Skeleton) returns (edgelist: seq<(Point3, Point3)>)
    requires WellFormed(s)
    ensures var kept := EmittedBelow(s, |s.halfedges|);
            |edgelist| == |kept| && forall k :: 0 <= k < |kept| ==> kept[k] < |s.halfedges| && edgelist[k] == EdgeOf(s, kept[k])
  {
    edgelist := [];
    for hit := 0 to |s.halfedges|
      invariant |edgelist| == |EmittedBelow(s, hit)|
      invariant forall k :: 0 <= k < |edgelist| ==>
                  EmittedBelow(s, hit)[k] < |s.halfedges| && edgelist[k] == EdgeOf(s, EmittedBelow(s, hit)[k])
    {
      EmittedBelowExactly(s, hit);
      var h := s.halfedges[hit];
      if !h.isBisector {
        continue;
      }
      var v1 := h.vertex;
      var v2 := s.halfedges[h.opposite].vertex;
      if s.address[v1] < s.address[v2] {
        var sVec := Lift(s.points[v1]);
        var tVec := Lift(s.points[v2]);
        edgelist := edgelist + [(sVec, tVec)];
      }
    }
  }

  /** Of a bisector and its opposite, exactly one is emitted when their
      vertices differ, and neither when they coincide; a non-bisector never
      is. So each undirected bisector between distinct vertices is listed
      once. */
  lemma OneOfEachPair(s: Skeleton, h: nat)
    requires WellFormed(s) && h < |s.halfedges|
    ensures var o := s.halfedges[h].opposite;
            var kept := EmittedBelow(s, |s.halfedges|);
            && (!s.halfedges[h].isBisector ==> h !in kept)
            && (s.halfedges[h].isBisector && Source(s, h) != Target(s, h) ==> (h in kept <==> o !in kept))
            && (Source(s, h) == Target(s, h) ==> h !in kept && o !in kept)
  {
    EmittedBelowExactly(s, |s.halfedges|);
  }
}
