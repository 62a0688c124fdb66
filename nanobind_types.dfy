/** src/nanobind_types.h: the two demonstration bindings, one that doubles a
    caller's matrix in place and one that builds a constant 3 x 3 matrix. */
module NanobindTypes {
  import opened Types

  /** The entries of a matrix buffer, row by row. */
  function Contents(mat: array2<real>): seq<seq<real>>
    reads mat
  {
    seq(mat.Length0, i requires 0 <= i < mat.Length0 reads mat =>
      seq(mat.Length1, j requires 0 <= j < mat.Length1 reads mat => mat[i, j]))
  }

  function Doubled(rows: seq<seq<real>>): (r: seq<seq<real>>)
    ensures |r| == |rows| && forall i :: 0 <= i < |rows| ==> |r[i]| == |rows[i]|
  {
    seq(|rows|, i requires 0 <= i < |rows| => seq(|rows[i]|, j requires 0 <= j < |rows[i]| => 2.0 * rows[i][j]))
  }

  function Halved(rows: seq<seq<real>>): seq<seq<real>>
  {
    seq(|rows|, i requires 0 <= i < |rows| => seq(|rows[i]|, j requires 0 <= j < |rows[i]| => rows[i][j] / 2.0))
  }

  /** Doubling loses nothing: halving undoes it. */
  lemma HalvedUndoesDoubled(rows: seq<seq<real>>)
    ensures Halved(Doubled(rows)) == rows
  {
    assert forall i :: 0 <= i < |rows| ==> Halved(Doubled(rows))[i] == rows[i];
  }

  /** scale_matrix: every element of the caller's buffer multiplied by 2.0,
      in place; the shape stays and nothing else is written. */
  method ScaleMatrix(mat: array2<real>)
    modifies mat
    ensures Contents(mat) == Doubled(old(Contents(mat)))
  {
    ghost var before := Contents(mat);
    for i := 0 to mat.Length0
      invariant forall r, c :: 0 <= r < i && 0 <= c < mat.Length1 ==> mat[r, c] == 2.0 * before[r][c]
      invariant forall r, c :: i <= r < mat.Length0 && 0 <= c < mat.Length1 ==> mat[r, c] == before[r][c]
    {
      for j := 0 to mat.Length1
        invariant forall r, c :: 0 <= r < i && 0 <= c < mat.Length1 ==> mat[r, c] == 2.0 * before[r][c]
        invariant forall c :: 0 <= c < j ==> mat[i, c] == 2.0 * before[i][c]
        invariant forall r, c :: i <= r < mat.Length0 && 0 <= c < mat.Length1 && (r > i || c >= j) ==> mat[r, c] == before[r][c]
      {
        mat[i, j] := 2.0 * mat[i, j];
      }
    }
    assert forall r :: 0 <= r < mat.Length0 ==> Contents(mat)[r] == Doubled(before)[r];
  }

  /** create_matrix: 3 x 3, entries 1.1, 2.2, ..., 9.9 in row-major order. */
  function CreateMatrix(): (m: Mat<real>)
    ensures m.cols == 3 && |m.rows| == 3 && m.WellShaped()
    ensures forall i, j :: 0 <= i < 3 && 0 <= j < 3 ==> m.rows[i][j] == 1.1 * (3 * i + j + 1) as real
  {
    Mat(3, [[1.1, 2.2, 3.3],
            [4.4, 5.5, 6.6],
            [7.7, 8.8, 9.9]])
  }

  /** Scaling the created matrix gives 2.2, 4.4, ..., 19.8. */
  lemma ScaledCreateMatrix()
    ensures Doubled(CreateMatrix().rows) == [[2.2, 4.4, 6.6], [8.8, 11.0, 13.2], [15.4, 17.6, 19.8]]
  {
    var d := Doubled(CreateMatrix().rows);
    assert d[0] == [2.2, 4.4, 6.6];
    assert d[1] == [8.8, 11.0, 13.2];
    assert d[2] == [15.4, 17.6, 19.8];
  }
}
