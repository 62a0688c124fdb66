/** src/geodesics.cpp: heat-method geodesic distances, as a one-shot function
    and as a solver object that keeps its mesh and reuses it for repeated
    queries. The heat method itself is CGAL's and enters as `estimate`: the
    distance it gives a vertex for a mesh and a set of source vertices. */
module Geodesics {
  import opened Types
  import Convert

  /** The heat-method estimate of vertex v's distance from a source set. */
  type Estimator = (Convert.MeshData, set<nat>, nat) -> real

  /** The source set after the add_source loop: the in-range entries of
      `sources`; negative ones and ones at or beyond n are skipped. */
  function ValidSources(sources: seq<int>, n: nat): set<nat>
  {
    if sources == [] then {}
    else
      var last := sources[|sources| - 1];
      ValidSources(sources[..|sources| - 1], n) + (if 0 <= last < n then {last as nat} else {})
  }

  /** A source is used exactly when it is listed and names a vertex. */
  lemma {:induction false} ValidSourcesExactly(sources: seq<int>, n: nat)
    ensures forall s: nat :: s in ValidSources(sources, n) <==> s in sources && s < n
  {
    if sources != [] {
      ValidSourcesExactly(sources[..|sources| - 1], n);
      assert sources == sources[..|sources| - 1] + [sources[|sources| - 1]];
    }
  }

  /** Out-of-range sources change nothing, and neither do the order and
      repetition of the sources. */
  lemma OutOfRangeSourcesIgnored(sources: seq<int>, other: seq<int>, n: nat)
    requires forall s :: s in other ==> s < 0 || s >= n
    ensures ValidSources(sources + other, n) == ValidSources(sources, n)
    ensures ValidSources(other + sources, n) == ValidSources(sources, n)
  {
    ValidSourcesExactly(sources + other, n);
    ValidSourcesExactly(other + sources, n);
    ValidSourcesExactly(sources, n);
  }

  lemma SameSourcesSameSet(a: seq<int>, b: seq<int>, n: nat)
    requires forall s :: s in a <==> s in b
    ensures ValidSources(a, n) == ValidSources(b, n)
  {
    ValidSourcesExactly(a, n);
    ValidSourcesExactly(b, n);
  }

  /** The add_source loop: the heat method's source set. */
  method AddSources(sources: seq<int>, n: nat) returns (added: set<nat>)
    ensures added == ValidSources(sources, n)
  {
    added := {};
    for k := 0 to |sources|
      invariant added == ValidSources(sources[..k], n)
    {
      assert sources[..k + 1][..k] == sources[..k];
      var src := sources[k];
      if src >= 0 && src < n {
        added := added + {src as nat};
      }
    }
    assert sources[..|sources|] == sources;
  }

  /** The distance map written by estimate_geodesic_distances. */
  function Estimated(mesh: Convert.MeshData, sources: set<nat>, estimate: Estimator): seq<real>
  {
    seq(|mesh.points|, v requires 0 <= v < |mesh.points| => estimate(mesh, sources, v))
  }

  /** The copy loop: an n x 1 matrix whose row v holds vertex v's distance. */
  method DistanceColumn(distanceMap: seq<real>) returns (result: Mat<real>)
    ensures result.cols == 1 && |result.rows| == |distanceMap|
    ensures forall v :: 0 <= v < |distanceMap| ==> result.rows[v] == [distanceMap[v]]
  {
    var rows := seq(|distanceMap|, _ => [0.0]);
    for vd := 0 to |distanceMap|
      invariant |rows| == |distanceMap|
      invariant forall v :: 0 <= v < vd ==> rows[v] == [distanceMap[v]]
    {
      rows := rows[vd := [distanceMap[vd]]];
    }
    result := Mat(1, rows);
  }

  /** pmp_heat_geodesic_distances: build the mesh, start every distance at
      0.0, add the in-range sources, estimate, and copy the distances out. */
  method HeatGeodesicDistances(V: Mat<real>, F: Mat<int>, sources: seq<int>, estimate: Estimator)
    returns (result: Mat<real>)
    requires V.WellShaped() && V.cols >= 3 && F.WellShaped() && F.cols >= 3
    requires Convert.EntriesInRange(F, 3, |V.rows|)
    ensures var mesh := Convert.MeshData(Convert.PointsOf(V), Convert.FaceRowsOf(F, 3));
            var used := ValidSources(sources, |V.rows|);
            && result.cols == 1 && |result.rows| == |V.rows|
            && forall v :: 0 <= v < |V.rows| ==> result.rows[v] == [estimate(mesh, used, v)]
  {
    var mesh := Convert.MeshFromVerticesAndFaces(V, F);
    var nVertices := |mesh.points|;
    var distanceMap := seq(nVertices, _ => 0.0);
    var used := AddSources(sources, nVertices);
    distanceMap := Estimated(mesh, used, estimate);
    result := DistanceColumn(distanceMap);
  }

  /** HeatGeodesicSolver: the mesh, its vertex count and the heat method's
      precomputation are made once; each solve replaces the source set. */
  class HeatGeodesicSolver {
    const mesh: Convert.MeshData
    const nVertices: nat
    const estimate: Estimator
    /** The "v:distance" property map. */
    var distanceMap: seq<real>
    /** The heat method's current source set. */
    var sources: set<nat>

    ghost predicate Valid()
      reads this
    {
      nVertices == |mesh.points| && |distanceMap| == nVertices && forall s :: s in sources ==> s < nVertices
    }

    constructor (V: Mat<real>, F: Mat<int>, estimate: Estimator)
      requires V.WellShaped() && V.cols >= 3 && F.WellShaped() && F.cols >= 3
      requires Convert.EntriesInRange(F, 3, |V.rows|)
      ensures Valid()
      ensures mesh == Convert.MeshData(Convert.PointsOf(V), Convert.FaceRowsOf(F, 3))
      ensures nVertices == |V.rows| && this.estimate == estimate
      ensures distanceMap == seq(|V.rows|, _ => 0.0) && sources == {}
    {
      var built := Convert.MeshFromVerticesAndFaces(V, F);
      mesh := built;
      nVertices := |built.points|;
      this.estimate := estimate;
      distanceMap := seq(|built.points|, _ => 0.0);
      sources := {};
    }

    /** solve: clear the previous sources, add this call's in-range ones,
        estimate, copy out. The result depends on this call's sources only. */
    method Solve(requested: seq<int>) returns (result: Mat<real>)
      requires Valid()
      modifies this
      ensures Valid()
      ensures sources == ValidSources(requested, nVertices)
      ensures distanceMap == Estimated(mesh, sources, estimate)
      ensures result.cols == 1 && |result.rows| == nVertices
      ensures forall v :: 0 <= v < nVertices ==> result.rows[v] == [estimate(mesh, sources, v)]
    {
      sources := {};
      var added := AddSources(requested, nVertices);
      sources := sources + added;
      ValidSourcesExactly(requested, nVertices);
      distanceMap := Estimated(mesh, sources, estimate);
      result := DistanceColumn(distanceMap);
    }

    /** num_vertices: fixed when the solver is made. */
    function NumVertices(): (n: nat)
      reads this
      requires Valid()
      ensures n == |mesh.points| && n == |distanceMap|
    {
      nVertices
    }
  }

  /** The function and the solver agree: for the same mesh and sources, a
      solve returns what the one-shot function returns, whatever the solver
      was asked before. */
  method SolverAgreesWithFunction(V: Mat<real>, F: Mat<int>, first: seq<int>, sources: seq<int>, estimate: Estimator)
    returns (fromFunction: Mat<real>, fromSolver: Mat<real>)
    requires V.WellShaped() && V.cols >= 3 && F.WellShaped() && F.cols >= 3
    requires Convert.EntriesInRange(F, 3, |V.rows|)
    ensures fromFunction == fromSolver
  {
    fromFunction := HeatGeodesicDistances(V, F, sources, estimate);
    var solver := new HeatGeodesicSolver(V, F, estimate);
    var _ := solver.Solve(first);
    fromSolver := solver.Solve(sources);
    assert fromFunction.rows == fromSolver.rows;
  }
}
