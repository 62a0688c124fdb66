/** Value types shared by every module: points, row-major matrices and the
    Option/Result wrappers used for the source's missing values and raised errors. */
module Types {

  datatype Option<+T> = None | Some(value: T)

  datatype Result<+T, +E> = Success(value: T) | Failure(error: E)

  /** A point in the plane; the (x, y) that the 2D kernels read from a matrix row. */
  datatype Point2 = Point2(x: real, y: real)

  /** A point in space. */
  datatype Point3 = Point3(x: real, y: real, z: real)

  /** A dense row-major matrix (Eigen's RowMatrixXd / RowMatrixXi): the number
      of columns is kept even when there are no rows. */
  datatype Mat<T> = Mat(cols: nat, rows: seq<seq<T>>) {

    /** Every row has exactly `cols` entries. */
    ghost predicate WellShaped() {
      forall i :: 0 <= i < |rows| ==> |rows[i]| == cols
    }
  }

  /** The coordinates of a point as a 3-column matrix row. */
  function Row3(p: Point3): seq<real> {
    [p.x, p.y, p.z]
  }

  function Min(a: int, b: int): int {
    if a < b then a else b
  }
}
