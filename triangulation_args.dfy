/** The Python wrappers of src/compas_cgal/triangulation.py: how the
    constrained, conforming and refined entry points turn their optional
    arguments into the arrays, hole and curve vectors and flags handed to the
    native triangulation functions. */
module TriangulationArgs {
  import opened Types
  import Triangulation

  /** A polygon or polyline as the list of its points' coordinates. */
  type Polyline = seq<seq<real>>

  /** The `points` array handed to the native code: the caller's points
      converted as they are, or a freshly made zero-row array of `cols` columns. */
  datatype PointsArray = Converted(rows: seq<seq<real>>) | ZeroRows(cols: nat)

  /** The arguments of the native constrained_delaunay_triangulation. */
  datatype CdtCall = CdtCall(boundary: Polyline, points: PointsArray, holes: seq<Polyline>,
                             curves: seq<Polyline>, isConforming: bool)

  /** The arguments of the native refined_delaunay_mesh. */
  datatype RefinedCall = RefinedCall(boundary: Polyline, points: PointsArray, holes: seq<Polyline>,
                                     curves: seq<Polyline>, minangle: real, maxlength: real,
                                     isOptimized: bool)

  /** The holes with at least three points, in order. */
  function LongHoles(holes: seq<Polyline>): seq<Polyline>
  {
    if holes == [] then []
    else LongHoles(holes[..|holes| - 1]) + (if |holes[|holes| - 1]| < 3 then [] else [holes[|holes| - 1]])
  }

  /** A missing or empty list (Python's `if holes:`) gives no items. */
  function Items(xs: Option<seq<Polyline>>): seq<Polyline>
  {
    if xs.Some? then xs.value else []
  }

  /** LongHoles keeps exactly the holes of three or more points. */
  lemma {:induction false} LongHolesExactly(holes: seq<Polyline>)
    ensures forall h :: h in LongHoles(holes) <==> h in holes && |h| >= 3
    ensures |LongHoles(holes)| <= |holes|
  {
    if holes != [] {
      LongHolesExactly(holes[..|holes| - 1]);
      assert holes == holes[..|holes| - 1] + [holes[|holes| - 1]];
    }
  }

  /** The positions of the holes LongHoles keeps. */
  function LongHolePositions(holes: seq<Polyline>): seq<nat>
  {
    if holes == [] then []
    else LongHolePositions(holes[..|holes| - 1]) + (if |holes[|holes| - 1]| < 3 then [] else [|holes| - 1])
  }

  /** LongHoles keeps the order of the holes: it is the subsequence at
      increasing positions LongHolePositions. */
  lemma {:induction false} LongHolesInOrder(holes: seq<Polyline>)
    ensures |LongHolePositions(holes)| == |LongHoles(holes)|
    ensures forall k :: 0 <= k < |LongHoles(holes)| ==>
              LongHolePositions(holes)[k] < |holes| && LongHoles(holes)[k] == holes[LongHolePositions(holes)[k]]
    ensures forall k, l :: 0 <= k < l < |LongHoles(holes)| ==> LongHolePositions(holes)[k] < LongHolePositions(holes)[l]
  {
    if holes != [] {
      LongHolesInOrder(holes[..|holes| - 1]);
    }
  }

  /** Filtering twice drops nothing more. */
  lemma LongHolesIdempotent(holes: seq<Polyline>)
    ensures LongHoles(LongHoles(holes)) == LongHoles(holes)
  {
    LongHolesExactly(holes);
    assert forall k :: 0 <= k < |LongHoles(holes)| ==> LongHoles(holes)[k] in LongHoles(holes);
    LongHolesAllLong(LongHoles(holes));
  }

  /** Holes that are all long enough pass through unchanged. */
  lemma {:induction false} LongHolesAllLong(holes: seq<Polyline>)
    requires forall k :: 0 <= k < |holes| ==> |holes[k]| >= 3
    ensures LongHoles(holes) == holes
  {
    if holes != [] {
      LongHolesAllLong(holes[..|holes| - 1]);
      assert holes == holes[..|holes| - 1] + [holes[|holes| - 1]];
    }
  }

  /** The hole loop of the conforming and refined wrappers: skip (continue)
      every hole of fewer than three points, append the others. */
  method DropShortHoles(holes: Option<seq<Polyline>>) returns (vector: seq<Polyline>)
    ensures vector == LongHoles(Items(holes))
  {
    vector := [];
    if holes.Some? {
      var all := holes.value;
      for k := 0 to |all|
        invariant vector == LongHoles(all[..k])
      {
        assert all[..k + 1][..k] == all[..k];
        var hole := all[k];
        if |hole| < 3 {
          continue;
        }
        vector := vector + [hole];
      }
      assert all[..|all|] == all;
    }
  }

  /** The curve (and unfiltered hole) loop: append every item in order. */
  method AppendAll(items: Option<seq<Polyline>>) returns (vector: seq<Polyline>)
    ensures vector == Items(items)
  {
    vector := [];
    if items.Some? {
      var all := items.value;
      for k := 0 to |all|
        invariant vector == all[..k]
      {
        vector := vector + [all[k]];
      }
    }
  }

  /** Python's `maxlength or 0.0`: a missing (or zero) maximum length is 0.0. */
  function MaxLengthArg(maxlength: Option<real>): (r: real)
    ensures maxlength.None? ==> r == 0.0
    ensures maxlength.Some? ==> r == maxlength.value
  {
    if maxlength.None? || maxlength.value == 0.0 then 0.0 else maxlength.value
  }

  /** constrained_delaunay_triangulation: `points or []`, every hole and curve
      forwarded, not conforming. */
  method ConstrainedArgs(boundary: Polyline, points: Option<seq<seq<real>>>,
                         holes: Option<seq<Polyline>>, curves: Option<seq<Polyline>>) returns (call: CdtCall)
    ensures call.boundary == boundary
    ensures call.points == Converted(if points.Some? then points.value else [])
    ensures call.holes == Items(holes) && call.curves == Items(curves)
    ensures !call.isConforming
  {
    var pointRows := if points.Some? && points.value != [] then points.value else [];
    var holesVector := AppendAll(holes);
    var curvesVector := AppendAll(curves);
    call := CdtCall(boundary, Converted(pointRows), holesVector, curvesVector, false);
  }

  /** conforming_delaunay_triangulation: a missing `points` becomes a zero-row
      array of 3 columns, holes of fewer than three points are dropped,
      curves are forwarded, conforming. */
  method ConformingArgs(boundary: Polyline, points: Option<seq<seq<real>>>,
                        holes: Option<seq<Polyline>>, curves: Option<seq<Polyline>>) returns (call: CdtCall)
    ensures call.boundary == boundary
    ensures call.points == (if points.None? then ZeroRows(3) else Converted(points.value))
    ensures call.holes == LongHoles(Items(holes)) && call.curves == Items(curves)
    ensures call.isConforming
  {
    var pointsArray := if points.None? then ZeroRows(3) else Converted(points.value);
    var holesVector := DropShortHoles(holes);
    var curvesVector := AppendAll(curves);
    call := CdtCall(boundary, pointsArray, holesVector, curvesVector, true);
  }

  /** refined_delaunay_mesh: a missing `points` becomes a zero-row array of 2
      columns, short holes are dropped, curves forwarded, minangle fixed at
      0.0 and a missing maxlength sent as 0.0. */
  method RefinedArgs(boundary: Polyline, points: Option<seq<seq<real>>>,
                     holes: Option<seq<Polyline>>, curves: Option<seq<Polyline>>,
                     maxlength: Option<real>, isOptimized: bool) returns (call: RefinedCall)
    ensures call.boundary == boundary
    ensures call.points == (if points.None? then ZeroRows(2) else Converted(points.value))
    ensures call.holes == LongHoles(Items(holes)) && call.curves == Items(curves)
    ensures call.minangle == 0.0 && call.maxlength == MaxLengthArg(maxlength)
    ensures call.isOptimized == isOptimized
  {
    var pointsArray := if points.None? then ZeroRows(2) else Converted(points.value);
    var holesVector := DropShortHoles(holes);
    var curvesVector := AppendAll(curves);
    var length := MaxLengthArg(maxlength);
    call := RefinedCall(boundary, pointsArray, holesVector, curvesVector, 0.0, length, isOptimized);
  }

  /** Through the Python wrapper, a refined mesh without maxlength is refined
      with CGAL's default criteria, and one with a positive maxlength with a
      size bound and no aspect bound. */
  lemma RefinedCriteriaFromWrapper(maxlength: Option<real>)
    ensures maxlength.None? ==> Triangulation.RefineCriteria(0.0, MaxLengthArg(maxlength)) == Triangulation.DefaultCriteria
    ensures maxlength.Some? && maxlength.value > 0.0 ==>
              Triangulation.RefineCriteria(0.0, MaxLengthArg(maxlength)) == Triangulation.Criteria(0.0, maxlength.value)
  {
  }
}
