/** The marshalling converters of src/compas.h and their out-of-line copies in
    src/stdafx.cpp: (V, F) row-major matrices into a mesh or polyhedron and
    back, and polylines into lists of point matrices. A CGAL Surface_mesh or
    Polyhedron_3 is modelled by its vertex points and its faces (vertex
    numbers in circulation order); a Surface_mesh vertex's number is its
    idx(), a Polyhedron vertex's number its position in iteration order. */
module Convert {
  import opened Types

  datatype MeshData = MeshData(points: seq<Point3>, faces: seq<seq<nat>>)

  /** Every face entry numbers a vertex. */
  ghost predicate Indexed(m: MeshData)
  {
    forall f, t :: 0 <= f < |m.faces| && 0 <= t < |m.faces[f]| ==> m.faces[f][t] < |m.points|
  }

  /** The point of row i of V (its first three columns). */
  function RowPoint(V: Mat<real>, i: nat): Point3
    requires V.WellShaped() && V.cols >= 3 && i < |V.rows|
  {
    Point3(V.rows[i][0], V.rows[i][1], V.rows[i][2])
  }

  /** One point per row of V, in row order. */
  function PointsOf(V: Mat<real>): seq<Point3>
    requires V.WellShaped() && V.cols >= 3
  {
    seq(|V.rows|, i requires 0 <= i < |V.rows| => RowPoint(V, i))
  }

  /** The first `width` entries of each face row as vertex numbers. */
  function FaceRowsOf(F: Mat<int>, width: nat): seq<seq<nat>>
    requires F.WellShaped() && width <= F.cols
    requires forall i, t :: 0 <= i < |F.rows| && 0 <= t < width ==> F.rows[i][t] >= 0
  {
    seq(|F.rows|, i requires 0 <= i < |F.rows| =>
      seq(width, t requires 0 <= t < width => F.rows[i][t] as nat))
  }

  /** F's entries in columns below `width` number rows of V. */
  ghost predicate EntriesInRange(F: Mat<int>, width: nat, nv: nat)
    requires F.WellShaped() && width <= F.cols
  {
    forall i, t :: 0 <= i < |F.rows| && 0 <= t < width ==> 0 <= F.rows[i][t] < nv
  }

  /** The vertex loop shared by every builder: one vertex per row of V, added
      in row order, its number (the index_descriptor entry) being its row. */
  method AddVertices(V: Mat<real>) returns (points: seq<Point3>, indexDescriptor: seq<nat>)
    requires V.WellShaped() && V.cols >= 3
    ensures points == PointsOf(V)
    ensures |indexDescriptor| == |V.rows| && forall i :: 0 <= i < |V.rows| ==> indexDescriptor[i] == i
  {
    points := [];
    indexDescriptor := [];
    for i := 0 to |V.rows|
      invariant |points| == i && |indexDescriptor| == i
      invariant forall k :: 0 <= k < i ==> points[k] == RowPoint(V, k) && indexDescriptor[k] == k
    {
      var point := Point3(V.rows[i][0], V.rows[i][1], V.rows[i][2]);
      indexDescriptor := indexDescriptor + [|points|];
      points := points + [point];
    }
  }

  /** mesh_from_vertices_and_faces: one vertex per V row, and face i made of
      the vertices at F(i, 0), F(i, 1) and F(i, 2); further columns of F are
      never read. The entries are not checked, so they must number rows of V. */
  method MeshFromVerticesAndFaces(V: Mat<real>, F: Mat<int>) returns (mesh: MeshData)
    requires V.WellShaped() && V.cols >= 3 && F.WellShaped() && F.cols >= 3
    requires EntriesInRange(F, 3, |V.rows|)
    ensures mesh == MeshData(PointsOf(V), FaceRowsOf(F, 3))
    ensures Indexed(mesh)
  {
    var points, indexDescriptor := AddVertices(V);
    var faces: seq<seq<nat>> := [];
    for i := 0 to |F.rows|
      invariant faces == FaceRowsOf(F, 3)[..i]
    {
      var a := indexDescriptor[F.rows[i][0]];
      var b := indexDescriptor[F.rows[i][1]];
      var c := indexDescriptor[F.rows[i][2]];
      assert [a, b, c] == FaceRowsOf(F, 3)[i];
      assert FaceRowsOf(F, 3)[..i + 1] == FaceRowsOf(F, 3)[..i] + [FaceRowsOf(F, 3)[i]];
      faces := faces + [[a, b, c]];
    }
    mesh := MeshData(points, faces);
  }

  /** ngon_from_vertices_and_faces: every entry of every face list is used,
      so faces of any size are built. */
  method NgonFromVerticesAndFaces(V: Mat<real>, faces: seq<seq<int>>) returns (mesh: MeshData)
    requires V.WellShaped() && V.cols >= 3
    requires forall i, j :: 0 <= i < |faces| && 0 <= j < |faces[i]| ==> 0 <= faces[i][j] < |V.rows|
    ensures mesh.points == PointsOf(V) && |mesh.faces| == |faces|
    ensures forall i :: 0 <= i < |faces| ==>
              |mesh.faces[i]| == |faces[i]| && forall j :: 0 <= j < |faces[i]| ==> mesh.faces[i][j] == faces[i][j]
    ensures Indexed(mesh)
  {
    var points, indexDescriptor := AddVertices(V);
    var built: seq<seq<nat>> := [];
    for i := 0 to |faces|
      invariant |built| == i
      invariant forall k :: 0 <= k < i ==>
                  |built[k]| == |faces[k]| && forall j :: 0 <= j < |faces[k]| ==> built[k][j] == faces[k][j]
    {
      var face: seq<nat> := [];
      for j := 0 to |faces[i]|
        invariant |face| == j && forall l :: 0 <= l < j ==> face[l] == faces[i][l]
      {
        face := face + [indexDescriptor[faces[i][j]]];
      }
      built := built + [face];
    }
    mesh := MeshData(points, built);
  }

  /** Build_polyhedron (polyhedron_from_vertices_and_faces): all vertices
      first, then one facet per row of F using every column of it. */
  method BuildPolyhedron(V: Mat<real>, F: Mat<int>) returns (polyhedron: MeshData)
    requires V.WellShaped() && V.cols >= 3 && F.WellShaped()
    requires EntriesInRange(F, F.cols, |V.rows|)
    ensures polyhedron == MeshData(PointsOf(V), FaceRowsOf(F, F.cols))
    ensures Indexed(polyhedron)
  {
    var points, _ := AddVertices(V);
    var facets: seq<seq<nat>> := [];
    for i := 0 to |F.rows|
      invariant facets == FaceRowsOf(F, F.cols)[..i]
    {
      var facet: seq<nat> := [];
      for j := 0 to F.cols
        invariant facet == FaceRowsOf(F, F.cols)[i][..j]
      {
        assert FaceRowsOf(F, F.cols)[i][..j + 1] == FaceRowsOf(F, F.cols)[i][..j] + [F.rows[i][j] as nat];
        facet := facet + [F.rows[i][j] as nat];
      }
      assert FaceRowsOf(F, F.cols)[i][..F.cols] == FaceRowsOf(F, F.cols)[i];
      assert FaceRowsOf(F, F.cols)[..i + 1] == FaceRowsOf(F, F.cols)[..i] + [FaceRowsOf(F, F.cols)[i]];
      facets := facets + [facet];
    }
    polyhedron := MeshData(points, facets);
  }

  /** The rows V and F read back from a mesh: a vertex's coordinates at row
      idx(), a face's vertex numbers at row idx(). */
  function VertexMatrix(m: MeshData): Mat<real>
  {
    Mat(3, seq(|m.points|, v requires 0 <= v < |m.points| => Row3(m.points[v])))
  }

  function FaceMatrix(m: MeshData, width: nat): Mat<int>
  {
    Mat(width, seq(|m.faces|, f requires 0 <= f < |m.faces| => seq(|m.faces[f]|, t requires 0 <= t < |m.faces[f]| => m.faces[f][t] as int)))
  }

  /** Every face has exactly `width` vertices (the triangles-only or
      quads-only mesh the converters are documented to take). */
  ghost predicate FacesOfWidth(m: MeshData, width: nat)
  {
    forall f :: 0 <= f < |m.faces| ==> |m.faces[f]| == width
  }

  /** The loops shared by mesh_to_vertices_and_faces (width 3) and
      quadmesh_to_vertices_and_faces (width 4): preallocated #v x 3 and
      #f x width matrices filled at each vertex's and face's index. */
  method MeshToMatrices(m: MeshData, width: nat) returns (V: Mat<real>, F: Mat<int>)
    requires FacesOfWidth(m, width)
    ensures V == VertexMatrix(m) && F == FaceMatrix(m, width)
    ensures V.WellShaped() && F.WellShaped()
  {
    var vRows := seq(|m.points|, _ => [0.0, 0.0, 0.0]);
    for vd := 0 to |m.points|
      invariant |vRows| == |m.points|
      invariant forall v :: 0 <= v < vd ==> vRows[v] == Row3(m.points[v])
      invariant forall v :: vd <= v < |m.points| ==> |vRows[v]| == 3
    {
      var location := m.points[vd];
      vRows := vRows[vd := [location.x, location.y, location.z]];
    }
    var fRows := seq(|m.faces|, _ => seq(width, _ => 0));
    for fd := 0 to |m.faces|
      invariant |fRows| == |m.faces|
      invariant forall f :: 0 <= f < fd ==> fRows[f] == FaceMatrix(m, width).rows[f]
      invariant forall f :: fd <= f < |m.faces| ==> |fRows[f]| == width
    {
      var row := fRows[fd];
      var i := 0;
      while i < |m.faces[fd]|
        invariant i <= |m.faces[fd]| && |row| == width
        invariant forall t :: 0 <= t < i ==> row[t] == m.faces[fd][t] as int
      {
        row := row[i := m.faces[fd][i] as int];
        i := i + 1;
      }
      fRows := fRows[fd := row];
    }
    V := Mat(3, vRows);
    F := Mat(width, fRows);
  }

  /** mesh_to_vertices_and_faces, for a mesh of triangles. */
  method MeshToVerticesAndFaces(m: MeshData) returns (V: Mat<real>, F: Mat<int>)
    requires FacesOfWidth(m, 3)
    ensures V == VertexMatrix(m) && F == FaceMatrix(m, 3) && V.WellShaped() && F.WellShaped()
  {
    V, F := MeshToMatrices(m, 3);
  }

  /** quadmesh_to_vertices_and_faces, for a mesh of quads. */
  method QuadmeshToVerticesAndFaces(m: MeshData) returns (V: Mat<real>, F: Mat<int>)
    requires FacesOfWidth(m, 4)
    ensures V == VertexMatrix(m) && F == FaceMatrix(m, 4) && V.WellShaped() && F.WellShaped()
  {
    V, F := MeshToMatrices(m, 4);
  }

  /** Reading a triangle mesh back gives the matrices it was built from:
      mesh_to_vertices_and_faces undoes mesh_from_vertices_and_faces when V
      and F have three columns. */
  lemma MatricesRoundTrip(V: Mat<real>, F: Mat<int>)
    requires V.WellShaped() && V.cols == 3 && F.WellShaped() && F.cols == 3
    requires EntriesInRange(F, 3, |V.rows|)
    ensures FacesOfWidth(MeshData(PointsOf(V), FaceRowsOf(F, 3)), 3)
    ensures VertexMatrix(MeshData(PointsOf(V), FaceRowsOf(F, 3))) == V
    ensures FaceMatrix(MeshData(PointsOf(V), FaceRowsOf(F, 3)), 3) == F
  {
    var m := MeshData(PointsOf(V), FaceRowsOf(F, 3));
    assert forall v :: 0 <= v < |V.rows| ==> VertexMatrix(m).rows[v] == V.rows[v];
    assert forall f :: 0 <= f < |F.rows| ==> FaceMatrix(m, 3).rows[f] == F.rows[f];
  }

  /** Building from the matrices of a mesh gives the mesh back (the other
      direction of the round trip), for any face width. */
  lemma MeshRoundTrip(m: MeshData, width: nat)
    requires Indexed(m) && FacesOfWidth(m, width)
    ensures EntriesInRange(FaceMatrix(m, width), width, |m.points|)
    ensures PointsOf(VertexMatrix(m)) == m.points
    ensures FaceRowsOf(FaceMatrix(m, width), width) == m.faces
  {
    var F := FaceMatrix(m, width);
    assert forall f :: 0 <= f < |m.faces| ==> FaceRowsOf(F, width)[f] == m.faces[f];
  }

  /** The point matrix of one polyline: one row per point, three columns. */
  function PointMatrix(poly: seq<Point3>): Mat<real>
  {
    Mat(3, seq(|poly|, j requires 0 <= j < |poly| => Row3(poly[j])))
  }

  /** polylines_to_lists_of_points: one n x 3 matrix per polyline, in order. */
  method PolylinesToListsOfPoints(polylines: seq<seq<Point3>>) returns (pointsets: seq<Mat<real>>)
    ensures |pointsets| == |polylines|
    ensures forall k :: 0 <= k < |polylines| ==> pointsets[k] == PointMatrix(polylines[k])
  {
    pointsets := [];
    for k := 0 to |polylines|
      invariant |pointsets| == k
      invariant forall l :: 0 <= l < k ==> pointsets[l] == PointMatrix(polylines[l])
    {
      var poly := polylines[k];
      var rows := seq(|poly|, _ => [0.0, 0.0, 0.0]);
      for j := 0 to |poly|
        invariant |rows| == |poly|
        invariant forall l :: 0 <= l < j ==> rows[l] == Row3(poly[l])
      {
        rows := rows[j := [poly[j].x, poly[j].y, poly[j].z]];
      }
      pointsets := pointsets + [Mat(3, rows)];
    }
  }

  /** A point matrix holds its polyline's points: reading the rows back gives
      the polyline. */
  lemma PointMatrixRoundTrip(poly: seq<Point3>)
    ensures PointMatrix(poly).WellShaped()
    ensures PointsOf(PointMatrix(poly)) == poly
  {
    assert forall j :: 0 <= j < |poly| ==> PointsOf(PointMatrix(poly))[j] == poly[j];
  }

  /** polyhedron_to_vertices_and_faces of src/compas.h: vertices numbered
      0 .. v-1 in iteration order through a vertex_id_map, facets (triangles)
      written through that map. */
  method PolyhedronToVerticesAndFaces(p: MeshData) returns (V: Mat<real>, F: Mat<int>)
    requires Indexed(p) && FacesOfWidth(p, 3)
    ensures V == VertexMatrix(p) && F == FaceMatrix(p, 3)
  {
    var vRows := seq(|p.points|, _ => [0.0, 0.0, 0.0]);
    var vertexIdMap: map<nat, int> := map[];
    for i := 0 to |p.points|
      invariant |vRows| == |p.points|
      invariant forall v :: 0 <= v < i ==> vRows[v] == Row3(p.points[v])
      invariant forall v: nat :: v in vertexIdMap <==> v < i
      invariant forall v :: v in vertexIdMap ==> vertexIdMap[v] == v
    {
      vertexIdMap := vertexIdMap[i := i];
      vRows := vRows[i := [p.points[i].x, p.points[i].y, p.points[i].z]];
    }
    var fRows := FacetsThrough(p, vertexIdMap);
    V := Mat(3, vRows);
    F := Mat(3, fRows);
  }

  /** The facet loop: each facet's vertices, circulated in order, through the
      vertex numbering `ids`. */
  method FacetsThrough(p: MeshData, ids: map<nat, int>) returns (fRows: seq<seq<int>>)
    requires Indexed(p) && FacesOfWidth(p, 3)
    requires forall v: nat :: v in ids <==> v < |p.points|
    requires forall v :: v in ids ==> ids[v] == v
    ensures fRows == FaceMatrix(p, 3).rows
  {
    fRows := seq(|p.faces|, _ => [0, 0, 0]);
    for i := 0 to |p.faces|
      invariant |fRows| == |p.faces| && forall f :: 0 <= f < |p.faces| ==> |fRows[f]| == 3
      invariant forall f :: 0 <= f < i ==> fRows[f] == FaceMatrix(p, 3).rows[f]
    {
      var row := fRows[i];
      var j := 0;
      while j < 3
        invariant j <= 3 && |row| == 3
        invariant forall t :: 0 <= t < j ==> row[t] == p.faces[i][t] as int
      {
        row := row[j := ids[p.faces[i][j]]];
        j := j + 1;
      }
      fRows := fRows[i := row];
    }
  }

  /** polyhedron_to_vertices_and_faces of src/stdafx.cpp: the same, except
      that it numbers the vertices by writing id = i into each vertex of its
      by-value copy of the polyhedron; `ids` stands for those id fields. */
  method PolyhedronToVerticesAndFacesWithIds(p: MeshData) returns (V: Mat<real>, F: Mat<int>)
    requires Indexed(p) && FacesOfWidth(p, 3)
    ensures V == VertexMatrix(p) && F == FaceMatrix(p, 3)
  {
    var vRows := seq(|p.points|, _ => [0.0, 0.0, 0.0]);
    var ids: seq<int> := seq(|p.points|, _ => -1);
    var i := 0;
    while i < |p.points|
      invariant i <= |p.points| && |vRows| == |p.points| && |ids| == |p.points|
      invariant forall v :: 0 <= v < i ==> vRows[v] == Row3(p.points[v]) && ids[v] == v
    {
      vRows := vRows[i := [p.points[i].x, p.points[i].y, p.points[i].z]];
      ids := ids[i := i];
      i := i + 1;
    }
    var fRows := seq(|p.faces|, _ => [0, 0, 0]);
    i := 0;
    while i < |p.faces|
      invariant i <= |p.faces| && |fRows| == |p.faces| && forall f :: 0 <= f < |p.faces| ==> |fRows[f]| == 3
      invariant forall f :: 0 <= f < i ==> fRows[f] == FaceMatrix(p, 3).rows[f]
    {
      var row := fRows[i];
      var j := 0;
      while j < 3
        invariant j <= 3 && |row| == 3
        invariant forall t :: 0 <= t < j ==> row[t] == p.faces[i][t] as int
      {
        row := row[j := ids[p.faces[i][j]]];
        j := j + 1;
      }
      fRows := fRows[i := row];
      i := i + 1;
    }
    V := Mat(3, vRows);
    F := Mat(3, fRows);
  }
}
