/** The polyline utilities of src/polylines.cpp: iterative Ramer-Douglas-Peucker
    simplification of a batch of polylines, and the shape rules and degenerate
    branches of the batch closest-point query (whose AABB-tree search is a
    parameter of the model).

    Distances are kept SQUARED over the reals: the square root is monotone on
    non-negative values, so comparing squares decides the same comparisons that
    the source makes on distances (see ExceedsThresholdIsDistanceComparison). */
module Polylines {
  import opened Types

  // ---------------------------------------------------------------------------
  // Point-to-segment distance (perpendicular_distance)
  // ---------------------------------------------------------------------------

  /** A segment whose squared length is below this is treated as one point. */
  const DegenerateLengthSq: real := 0.000000000001

  lemma ProductOfPositives(a: real, b: real)
    requires a > 0.0 && b > 0.0
    ensures a * b > 0.0
  {
  }

  lemma SquareFacts(x: real)
    ensures x * x >= 0.0
    ensures x != 0.0 ==> x * x > 0.0
  {
    if x > 0.0 {
      ProductOfPositives(x, x);
    } else if x < 0.0 {
      ProductOfPositives(-x, -x);
      assert (-x) * (-x) == x * x;
    }
  }

  /** Squaring is strictly monotone on the non-negative reals. */
  lemma SquareMonotone(a: real, b: real)
    requires a >= 0.0 && b >= 0.0
    ensures a * a > b * b <==> a > b
  {
    if a > b {
      ProductOfPositives(a - b, a + b);
      assert a * a - b * b == (a - b) * (a + b);
    } else {
      assert b * b - a * a == (b - a) * (b + a);
      if b > a {
        ProductOfPositives(b - a, b + a);
      }
    }
  }

  function SquaredDistance(p: Point2, q: Point2): (d: real)
    ensures d >= 0.0
    ensures p == q ==> d == 0.0
  {
    var dx := p.x - q.x;
    var dy := p.y - q.y;
    SquareFacts(dx);
    SquareFacts(dy);
    dx * dx + dy * dy
  }

  /** max(0, min(1, t)). */
  function Clamp01(t: real): (r: real)
    ensures 0.0 <= r <= 1.0
    ensures 0.0 <= t <= 1.0 ==> r == t
    ensures t < 0.0 ==> r == 0.0
    ensures t > 1.0 ==> r == 1.0
  {
    if t < 0.0 then 0.0 else if t > 1.0 then 1.0 else t
  }

  /** The square of perpendicular_distance(p, a, b): the distance from p to its
      clamped projection onto the segment a-b, or to a when the segment is
      degenerate. */
  function SegmentDistanceSq(p: Point2, a: Point2, b: Point2): (d: real)
    ensures d >= 0.0
  {
    var dx := b.x - a.x;
    var dy := b.y - a.y;
    var lenSq := dx * dx + dy * dy;
    if lenSq < DegenerateLengthSq then
      SquaredDistance(p, a)
    else
      var t := Clamp01(((p.x - a.x) * dx + (p.y - a.y) * dy) / lenSq);
      SquaredDistance(p, Point2(a.x + t * dx, a.y + t * dy))
  }

  /** A degenerate segment falls back to the point-to-point distance. */
  lemma SegmentDistanceDegenerate(p: Point2, a: Point2, b: Point2)
    ensures SquaredDistance(a, b) < DegenerateLengthSq ==> SegmentDistanceSq(p, a, b) == SquaredDistance(p, a)
  {
    var dx := b.x - a.x;
    var dy := b.y - a.y;
    assert SquaredDistance(a, b) == dx * dx + dy * dy;
  }

  /** The segment's first endpoint is at distance zero from it. */
  lemma SegmentDistanceAtStart(a: Point2, b: Point2)
    ensures SegmentDistanceSq(a, a, b) == 0.0
  {
    var dx := b.x - a.x;
    var dy := b.y - a.y;
    var lenSq := dx * dx + dy * dy;
    if lenSq >= DegenerateLengthSq {
      assert ((a.x - a.x) * dx + (a.y - a.y) * dy) / lenSq == 0.0;
    }
  }

  /** The last endpoint of a proper segment is at distance zero from it. */
  lemma SegmentDistanceAtEnd(a: Point2, b: Point2)
    ensures SquaredDistance(a, b) >= DegenerateLengthSq ==> SegmentDistanceSq(b, a, b) == 0.0
  {
    var dx := b.x - a.x;
    var dy := b.y - a.y;
    var lenSq := dx * dx + dy * dy;
    assert SquaredDistance(a, b) == lenSq;
    if lenSq >= DegenerateLengthSq {
      assert ((b.x - a.x) * dx + (b.y - a.y) * dy) / lenSq == 1.0;
      assert Point2(a.x + 1.0 * dx, a.y + 1.0 * dy) == b;
    }
  }

  /** sqrt(dSq) > threshold, decided on the square. */
  predicate ExceedsThreshold(dSq: real, threshold: real)
  {
    threshold < 0.0 || dSq > threshold * threshold
  }

  /** Comparing squares is comparing distances: the model's test on a squared
      distance agrees with the source's test on the distance itself. */
  lemma ExceedsThresholdIsDistanceComparison(d: real, threshold: real)
    requires d >= 0.0
    ensures ExceedsThreshold(d * d, threshold) <==> d > threshold
  {
    if threshold >= 0.0 {
      SquareMonotone(d, threshold);
    }
  }

  // ---------------------------------------------------------------------------
  // Douglas-Peucker (rdp_simplify)
  // ---------------------------------------------------------------------------

  /** Squared distance of row i from the chord pts[s]-pts[e]. */
  function Dist(pts: seq<Point2>, s: nat, e: nat, i: nat): real
    requires s < |pts| && e < |pts| && i < |pts|
  {
    SegmentDistanceSq(pts[i], pts[s], pts[e])
  }

  /** The scan of one range [s, e] over the interior rows s+1 .. hi-1, as the
      inner for-loop does it: the first row farthest from the chord and its
      squared distance, or (s, 0) when no row is farther than 0. */
  function Farthest(pts: seq<Point2>, s: nat, e: nat, hi: nat): (r: (nat, real))
    requires s < hi <= e < |pts|
    ensures r.1 >= 0.0
    ensures r.0 == s ==> r.1 == 0.0
    ensures r.0 != s ==> s < r.0 < hi && r.1 == Dist(pts, s, e, r.0) && r.1 > 0.0
    ensures forall i :: s < i < hi ==> Dist(pts, s, e, i) <= r.1
    ensures forall i :: s < i < r.0 ==> Dist(pts, s, e, i) < r.1
    decreases hi
  {
    if hi == s + 1 then (s, 0.0)
    else
      var prev := Farthest(pts, s, e, hi - 1);
      var di := Dist(pts, s, e, hi - 1);
      if di > prev.1 then (hi - 1, di) else prev
  }

  /** The rows strictly inside [s, e] that Douglas-Peucker marks, with the
      guard `maxIdx != s` that makes every pushed range strictly shorter (see
      "Findings" in the README: without it a negative threshold loops). */
  function KeptBy(pts: seq<Point2>, s: nat, e: nat, threshold: real): (r: set<nat>)
    requires s <= e < |pts|
    ensures forall k :: k in r ==> s < k < e
    decreases e - s
  {
    if e <= s + 1 then {}
    else
      var (m, d) := Farthest(pts, s, e, e);
      if m != s && ExceedsThreshold(d, threshold) then
        {m} + KeptBy(pts, s, m, threshold) + KeptBy(pts, m, e, threshold)
      else {}
  }

  /** A row is marked in a range only as that range's first farthest row, and
      only when its distance exceeds the threshold; a range whose rows are all
      within the threshold marks nothing. */
  lemma KeptByMarksFarthestAboveThreshold(pts: seq<Point2>, s: nat, e: nat, threshold: real)
    requires s <= e < |pts|
    ensures KeptBy(pts, s, e, threshold) != {} <==>
              s + 1 < e && var (m, d) := Farthest(pts, s, e, e);
              m != s && ExceedsThreshold(d, threshold)
    ensures s + 1 < e && threshold >= 0.0 &&
            (forall i :: s < i < e ==> !ExceedsThreshold(Dist(pts, s, e, i), threshold))
            ==> KeptBy(pts, s, e, threshold) == {}
  {
    if s + 1 < e {
      var (m, d) := Farthest(pts, s, e, e);
      if m != s && ExceedsThreshold(d, threshold) {
        assert m in KeptBy(pts, s, e, threshold);
      }
    }
  }

  /** A larger threshold keeps a subset of the rows. */
  lemma {:induction false} KeptByAntitone(pts: seq<Point2>, s: nat, e: nat, t1: real, t2: real)
    requires s <= e < |pts| && t1 <= t2
    ensures KeptBy(pts, s, e, t2) <= KeptBy(pts, s, e, t1)
    decreases e - s
  {
    if e > s + 1 {
      var (m, d) := Farthest(pts, s, e, e);
      if m != s && ExceedsThreshold(d, t2) {
        if t1 >= 0.0 {
          SquareMonotone(t1, t2);
        }
        assert ExceedsThreshold(d, t1);
        KeptByAntitone(pts, s, m, t1, t2);
        KeptByAntitone(pts, m, e, t1, t2);
      }
    }
  }

  /** For a non-negative threshold the added guard `maxIdx != s` never fires:
      the corrected pass marks exactly what the source marks. */
  lemma GuardRedundantForNonNegativeThreshold(pts: seq<Point2>, s: nat, e: nat, threshold: real)
    requires s < e < |pts| && threshold >= 0.0
    ensures var (m, d) := Farthest(pts, s, e, e);
            ExceedsThreshold(d, threshold) ==> m != s
  {
    SquareFacts(threshold);
  }

  ghost predicate ValidRanges(pts: seq<Point2>, stack: seq<(nat, nat)>)
  {
    forall k :: 0 <= k < |stack| ==> stack[k].0 <= stack[k].1 < |pts|
  }

  /** Everything the ranges still on the stack will mark. */
  function Pending(pts: seq<Point2>, stack: seq<(nat, nat)>, threshold: real): set<nat>
    requires ValidRanges(pts, stack)
  {
    if stack == [] then {}
    else
      var top := stack[|stack| - 1];
      Pending(pts, stack[..|stack| - 1], threshold) + KeptBy(pts, top.0, top.1, threshold)
  }

  function Interior(r: (nat, nat)): nat
  {
    if r.1 > r.0 then r.1 - r.0 - 1 else 0
  }

  /** The number of interior rows of all ranges on the stack. */
  function Work(stack: seq<(nat, nat)>): nat
  {
    if stack == [] then 0 else Work(stack[..|stack| - 1]) + Interior(stack[|stack| - 1])
  }

  lemma PushRange(pts: seq<Point2>, rest: seq<(nat, nat)>, r: (nat, nat), threshold: real)
    requires ValidRanges(pts, rest) && r.0 <= r.1 < |pts|
    ensures ValidRanges(pts, rest + [r])
    ensures Pending(pts, rest + [r], threshold) == Pending(pts, rest, threshold) + KeptBy(pts, r.0, r.1, threshold)
    ensures Work(rest + [r]) == Work(rest) + Interior(r)
  {
    assert (rest + [r])[..|rest|] == rest;
  }

  /** The inner for-loop of rdp_simplify: the first row of (s, e) farthest
      from the chord, starting from (s, 0). */
  method ScanRange(pts: seq<Point2>, segStart: nat, segEnd: nat) returns (maxIdx: nat, maxDist: real)
    requires segStart < segEnd < |pts|
    ensures (maxIdx, maxDist) == Farthest(pts, segStart, segEnd, segEnd)
  {
    maxDist := 0.0;
    maxIdx := segStart;
    var i := segStart + 1;
    while i < segEnd
      invariant segStart + 1 <= i <= segEnd
      invariant (maxIdx, maxDist) == Farthest(pts, segStart, segEnd, i)
    {
      var dist := SegmentDistanceSq(pts[i], pts[segStart], pts[segEnd]);
      if dist > maxDist {
        maxDist := dist;
        maxIdx := i;
      }
      i := i + 1;
    }
  }

  /** Unfolds KeptBy on a range with interior rows. */
  lemma KeptBySplit(pts: seq<Point2>, s: nat, e: nat, threshold: real, m: nat, d: real)
    requires s + 1 < e < |pts| && (m, d) == Farthest(pts, s, e, e)
    ensures m != s ==> s < m < e
    ensures m != s && ExceedsThreshold(d, threshold) ==>
              KeptBy(pts, s, e, threshold) ==
              {m} + KeptBy(pts, s, m, threshold) + KeptBy(pts, m, e, threshold)
    ensures !(m != s && ExceedsThreshold(d, threshold)) ==> KeptBy(pts, s, e, threshold) == {}
  {
  }

  /** The loop invariant of rdp_simplify: a row is marked now or will be
      marked by a pending range exactly when it was marked on entry or is
      marked by the whole pass. */
  ghost predicate MarksTrack(pts: seq<Point2>, cur: seq<bool>, orig: seq<bool>,
                             stack: seq<(nat, nat)>, target: set<nat>, threshold: real)
    requires ValidRanges(pts, stack)
  {
    |cur| == |orig| &&
    forall k :: 0 <= k < |cur| ==> (cur[k] || k in Pending(pts, stack, threshold)) == (orig[k] || k in target)
  }

  lemma PopRange(pts: seq<Point2>, cur: seq<bool>, orig: seq<bool>, rest: seq<(nat, nat)>, top: (nat, nat),
                 target: set<nat>, threshold: real)
    requires ValidRanges(pts, rest) && top.0 <= top.1 < |pts|
    requires ValidRanges(pts, rest + [top]) && MarksTrack(pts, cur, orig, rest + [top], target, threshold)
    requires KeptBy(pts, top.0, top.1, threshold) == {}
    ensures MarksTrack(pts, cur, orig, rest, target, threshold)
  {
    PushRange(pts, rest, top, threshold);
  }

  lemma SplitRange(pts: seq<Point2>, cur: seq<bool>, orig: seq<bool>, rest: seq<(nat, nat)>,
                   s: nat, m: nat, e: nat, target: set<nat>, threshold: real)
    requires ValidRanges(pts, rest) && s < m < e < |pts| && m < |cur|
    requires ValidRanges(pts, rest + [(s, e)]) && MarksTrack(pts, cur, orig, rest + [(s, e)], target, threshold)
    requires KeptBy(pts, s, e, threshold) == {m} + KeptBy(pts, s, m, threshold) + KeptBy(pts, m, e, threshold)
    ensures ValidRanges(pts, rest + [(s, m), (m, e)])
    ensures MarksTrack(pts, cur[m := true], orig, rest + [(s, m), (m, e)], target, threshold)
    ensures Work(rest + [(s, m), (m, e)]) < Work(rest + [(s, e)])
  {
    var split := rest + [(s, m), (m, e)];
    PushRange(pts, rest, (s, e), threshold);
    PushRange(pts, rest, (s, m), threshold);
    PushRange(pts, rest + [(s, m)], (m, e), threshold);
    assert rest + [(s, m)] + [(m, e)] == split;
    var before := Pending(pts, rest + [(s, e)], threshold);
    var after := Pending(pts, split, threshold);
    assert before == after + {m};
    var cur' := cur[m := true];
    forall k | 0 <= k < |cur'|
      ensures (cur'[k] || k in after) == (cur[k] || k in before)
    {
    }
  }

  /** rdp_simplify: drains an explicit stack of ranges, marking in `keep` the
      farthest row of each range that exceeds the threshold and pushing the two
      halves. It marks exactly KeptBy and touches nothing else. */
  method RdpSimplify(pts: seq<Point2>, start: nat, end: nat, threshold: real, keep: array<bool>)
    requires start <= end < |pts| == keep.Length
    modifies keep
    ensures forall k :: 0 <= k < keep.Length ==>
              keep[k] == (old(keep[k]) || k in KeptBy(pts, start, end, threshold))
  {
    ghost var orig := keep[..];
    ghost var target := KeptBy(pts, start, end, threshold);
    var stack: seq<(nat, nat)> := [(start, end)];
    PushRange(pts, [], (start, end), threshold);
    assert [] + [(start, end)] == stack;
    while stack != []
      invariant ValidRanges(pts, stack)
      invariant MarksTrack(pts, keep[..], orig, stack, target, threshold)
      decreases Work(stack), |stack|
    {
      stack := RdpStep(pts, threshold, keep, stack, orig, target);
    }
    assert MarksTrack(pts, keep[..], orig, [], target, threshold);
  }

  /** One iteration of rdp_simplify's outer loop: pop the top range; unless
      it has no interior row, find its farthest row and either mark it and
      push both halves, or drop the range. */
  method RdpStep(pts: seq<Point2>, threshold: real, keep: array<bool>, stack: seq<(nat, nat)>,
                 ghost orig: seq<bool>, ghost target: set<nat>)
    returns (stack': seq<(nat, nat)>)
    requires |pts| == keep.Length && stack != []
    requires ValidRanges(pts, stack) && MarksTrack(pts, keep[..], orig, stack, target, threshold)
    modifies keep
    ensures ValidRanges(pts, stack') && MarksTrack(pts, keep[..], orig, stack', target, threshold)
    ensures Work(stack') < Work(stack) || (Work(stack') == Work(stack) && |stack'| < |stack|)
  {
    hide KeptBy, Farthest, Pending, SegmentDistanceSq;
    var top := stack[|stack| - 1];
    var rest := stack[..|stack| - 1];
    PushRange(pts, rest, top, threshold);
    assert rest + [top] == stack;
    var segStart, segEnd := top.0, top.1;
    if segEnd <= segStart + 1 {
      PopRange(pts, keep[..], orig, rest, top, target, threshold);
      return rest;
    }
    var maxIdx, maxDist := ScanRange(pts, segStart, segEnd);
    KeptBySplit(pts, segStart, segEnd, threshold, maxIdx, maxDist);
    if maxIdx != segStart && ExceedsThreshold(maxDist, threshold) {
      SplitRange(pts, keep[..], orig, rest, segStart, maxIdx, segEnd, target, threshold);
      keep[maxIdx] := true;
      stack' := rest + [(segStart, maxIdx), (maxIdx, segEnd)];
    } else {
      PopRange(pts, keep[..], orig, rest, top, target, threshold);
      stack' := rest;
    }
  }

  // ---------------------------------------------------------------------------
  // The worklist exactly as written, and the input on which it never ends
  // ---------------------------------------------------------------------------

  /** The state of rdp_simplify's outer loop: the stack and the marked rows. */
  datatype Worklist = Worklist(stack: seq<(nat, nat)>, kept: set<nat>)

  /** One iteration of the outer loop as the source writes it: a range is split
      whenever its maximum exceeds the threshold, even when that maximum is
      the initial (seg_start, 0.0) because no interior row is farther than 0. */
  function StepAsWritten(pts: seq<Point2>, threshold: real, w: Worklist): (r: Worklist)
    requires w.stack != [] && ValidRanges(pts, w.stack)
    ensures ValidRanges(pts, r.stack)
  {
    var top := w.stack[|w.stack| - 1];
    var rest := w.stack[..|w.stack| - 1];
    if top.1 <= top.0 + 1 then Worklist(rest, w.kept)
    else
      var (m, d) := Farthest(pts, top.0, top.1, top.1);
      if ExceedsThreshold(d, threshold) then
        Worklist(rest + [(top.0, m), (m, top.1)], w.kept + {m})
      else Worklist(rest, w.kept)
  }

  /** At most `steps` iterations of the as-written loop (fewer if it empties). */
  function RunAsWritten(pts: seq<Point2>, threshold: real, w: Worklist, steps: nat): (r: Worklist)
    requires ValidRanges(pts, w.stack)
    decreases steps
  {
    if steps == 0 || w.stack == [] then w
    else RunAsWritten(pts, threshold, StepAsWritten(pts, threshold, w), steps - 1)
  }

  /** Three collinear rows: the middle one lies on the chord. */
  function CollinearRows(): seq<Point2>
  {
    [Point2(0.0, 0.0), Point2(1.0, 0.0), Point2(2.0, 0.0)]
  }

  /** On the three collinear rows the middle row lies on the chord, so the scan
      of (0, 2) ends with its initial (0, 0). */
  lemma CollinearScan()
    ensures Farthest(CollinearRows(), 0, 2, 2) == (0, 0.0)
  {
    var pts := CollinearRows();
    MiddleOnChord();
    assert Dist(pts, 0, 2, 1) == SegmentDistanceSq(Point2(1.0, 0.0), Point2(0.0, 0.0), Point2(2.0, 0.0));
  }

  lemma MiddleOnChord()
    ensures SegmentDistanceSq(Point2(1.0, 0.0), Point2(0.0, 0.0), Point2(2.0, 0.0)) == 0.0
  {
    assert Clamp01(((1.0 - 0.0) * 2.0 + (0.0 - 0.0) * 0.0) / 4.0) == 0.5;
    assert Point2(0.0 + 0.5 * 2.0, 0.0 + 0.5 * 0.0) == Point2(1.0, 0.0);
  }

  lemma {:induction false} AsWrittenKeepsRange02(w: Worklist, steps: nat)
    requires ValidRanges(CollinearRows(), w.stack)
    requires w.stack != [] && w.stack[|w.stack| - 1] == (0, 2)
    ensures var r := RunAsWritten(CollinearRows(), -1.0, w, steps);
            r.stack != [] && r.stack[|r.stack| - 1] == (0, 2)
    decreases steps
  {
    if steps > 0 {
      CollinearScan();
      var next := StepAsWritten(CollinearRows(), -1.0, w);
      assert next.stack == w.stack[..|w.stack| - 1] + [(0, 0), (0, 2)];
      AsWrittenKeepsRange02(next, steps - 1);
    }
  }

  /** rdp_simplify as written never finishes on three collinear rows with a
      negative threshold: after any number of iterations the range (0, 2) is
      back on top of the stack. */
  lemma AsWrittenNeverTerminates(steps: nat)
    ensures RunAsWritten(CollinearRows(), -1.0, Worklist([(0, 2)], {0, 2}), steps).stack != []
  {
    AsWrittenKeepsRange02(Worklist([(0, 2)], {0, 2}), steps);
  }

  // ---------------------------------------------------------------------------
  // Batch simplification (pmp_simplify_polylines)
  // ---------------------------------------------------------------------------

  /** A polyline the simplifier can read: rows of equal width, and at least the
      x and y columns whenever it is long enough to be simplified. */
  ghost predicate ValidPolyline(p: Mat<real>)
  {
    p.WellShaped() && (|p.rows| >= 3 ==> p.cols >= 2)
  }

  /** The (x, y) of every row: the only columns the distance reads. */
  function PlanarPoints(rows: seq<seq<real>>): (pts: seq<Point2>)
    requires forall i :: 0 <= i < |rows| ==> |rows[i]| >= 2
    ensures |pts| == |rows|
    ensures forall i :: 0 <= i < |rows| ==> pts[i] == Point2(rows[i][0], rows[i][1])
  {
    seq(|rows|, i requires 0 <= i < |rows| => Point2(rows[i][0], rows[i][1]))
  }

  /** The keep vector after the pass: both end rows plus what Douglas-Peucker marks. */
  function KeepMask(p: Mat<real>, threshold: real): (mask: seq<bool>)
    requires ValidPolyline(p) && |p.rows| >= 3
    ensures |mask| == |p.rows|
  {
    var n := |p.rows|;
    var marked := KeptBy(PlanarPoints(p.rows), 0, n - 1, threshold);
    seq(n, i => i == 0 || i == n - 1 || i in marked)
  }

  /** The entries of xs whose mask bit is set, in order. */
  function Filter<T>(xs: seq<T>, mask: seq<bool>): seq<T>
    requires |xs| == |mask|
  {
    if xs == [] then []
    else
      Filter(xs[..|xs| - 1], mask[..|xs| - 1]) + (if mask[|xs| - 1] then [xs[|xs| - 1]] else [])
  }

  function CountTrue(mask: seq<bool>): nat
  {
    if mask == [] then 0
    else CountTrue(mask[..|mask| - 1]) + (if mask[|mask| - 1] then 1 else 0)
  }

  /** The indices of the set mask bits, in increasing order. */
  function SetIndices(mask: seq<bool>): seq<nat>
  {
    if mask == [] then []
    else SetIndices(mask[..|mask| - 1]) + (if mask[|mask| - 1] then [|mask| - 1] else [])
  }

  /** What pmp_simplify_polylines returns for one polyline. */
  function Simplified(p: Mat<real>, threshold: real): Mat<real>
    requires ValidPolyline(p)
  {
    if |p.rows| < 3 then p
    else Mat(p.cols, Filter(p.rows, KeepMask(p, threshold)))
  }

  lemma {:induction false} FilterLength<T>(xs: seq<T>, mask: seq<bool>)
    requires |xs| == |mask|
    ensures |Filter(xs, mask)| == CountTrue(mask)
  {
    if xs != [] {
      FilterLength(xs[..|xs| - 1], mask[..|xs| - 1]);
    }
  }

  /** SetIndices lists, in strictly increasing order, exactly the set bits. */
  lemma {:induction false} SetIndicesFacts(mask: seq<bool>)
    ensures |SetIndices(mask)| == CountTrue(mask)
    ensures forall j :: 0 <= j < |SetIndices(mask)| ==>
              SetIndices(mask)[j] < |mask| && mask[SetIndices(mask)[j]]
    ensures forall j, k :: 0 <= j < k < |SetIndices(mask)| ==> SetIndices(mask)[j] < SetIndices(mask)[k]
    ensures forall i :: 0 <= i < |mask| && mask[i] ==> i in SetIndices(mask)
  {
    if mask != [] {
      var n := |mask| - 1;
      var prefix := mask[..n];
      SetIndicesFacts(prefix);
      assert forall i :: 0 <= i < n ==> prefix[i] == mask[i];
    }
  }

  /** The j-th kept entry is the entry at the j-th set index. */
  lemma {:induction false} FilterAt<T>(xs: seq<T>, mask: seq<bool>)
    requires |xs| == |mask|
    ensures |Filter(xs, mask)| == |SetIndices(mask)|
    ensures forall j :: 0 <= j < |Filter(xs, mask)| ==>
              SetIndices(mask)[j] < |xs| && Filter(xs, mask)[j] == xs[SetIndices(mask)[j]]
  {
    FilterLength(xs, mask);
    SetIndicesFacts(mask);
    if xs != [] {
      var n := |xs| - 1;
      FilterAt(xs[..n], mask[..n]);
    }
  }

  lemma FilterSnoc<T>(xs: seq<T>, mask: seq<bool>, i: nat)
    requires |xs| == |mask| && i < |xs|
    ensures Filter(xs[..i + 1], mask[..i + 1]) == Filter(xs[..i], mask[..i]) + (if mask[i] then [xs[i]] else [])
    ensures CountTrue(mask[..i + 1]) == CountTrue(mask[..i]) + (if mask[i] then 1 else 0)
  {
    assert xs[..i + 1][..i] == xs[..i];
    assert mask[..i + 1][..i] == mask[..i];
  }

  lemma {:induction false} CountTruePrefix(mask: seq<bool>, i: nat)
    requires i <= |mask|
    ensures CountTrue(mask[..i]) <= CountTrue(mask)
    ensures i < |mask| && mask[i] ==> CountTrue(mask[..i]) + 1 <= CountTrue(mask)
    decreases |mask|
  {
    if i < |mask| {
      var n := |mask| - 1;
      assert mask[..n][..i] == mask[..i];
      if i < n {
        CountTruePrefix(mask[..n], i);
      } else {
        assert mask[..i] == mask[..n];
      }
    } else {
      assert mask[..i] == mask;
    }
  }

  lemma {:induction false} CountAtMostLength(mask: seq<bool>)
    ensures CountTrue(mask) <= |mask|
  {
    if mask != [] {
      CountAtMostLength(mask[..|mask| - 1]);
    }
  }

  /** The result of simplifying a polyline of n >= 3 rows: between 2 and n rows,
      the first and last input rows at its ends, and every row an input row
      taken in increasing index order with all of its columns. */
  lemma SimplifiedKeepsEndsInOrder(p: Mat<real>, threshold: real)
    requires ValidPolyline(p) && |p.rows| >= 3
    ensures var r := Simplified(p, threshold);
            var idx := SetIndices(KeepMask(p, threshold));
            && r.cols == p.cols
            && 2 <= |r.rows| <= |p.rows|
            && r.rows[0] == p.rows[0]
            && r.rows[|r.rows| - 1] == p.rows[|p.rows| - 1]
            && |idx| == |r.rows|
            && (forall j :: 0 <= j < |r.rows| ==> idx[j] < |p.rows| && r.rows[j] == p.rows[idx[j]])
            && (forall j, k :: 0 <= j < k < |idx| ==> idx[j] < idx[k])
  {
    var n := |p.rows|;
    var mask := KeepMask(p, threshold);
    var idx := SetIndices(mask);
    FilterAt(p.rows, mask);
    SetIndicesFacts(mask);
    CountAtMostLength(mask);
    assert mask[0] && mask[n - 1];
    assert 0 in idx && n - 1 in idx;
    var a :| 0 <= a < |idx| && idx[a] == 0;
    var b :| 0 <= b < |idx| && idx[b] == n - 1;
    assert a != b;
    assert idx[0] == 0;
    assert idx[|idx| - 1] == n - 1;
  }

  /** The counting loop of pmp_simplify_polylines. */
  method CountKept(keep: array<bool>) returns (count: nat)
    ensures count == CountTrue(keep[..])
  {
    count := 0;
    for i := 0 to keep.Length
      invariant count == CountTrue(keep[..i])
    {
      FilterSnoc(keep[..], keep[..], i);
      if keep[i] {
        count := count + 1;
      }
    }
    assert keep[..keep.Length] == keep[..];
  }

  /** The compaction loop: copies every kept row, in order, into a result
      preallocated with `count` rows. */
  method CopyKept(rows: seq<seq<real>>, cols: nat, keep: array<bool>, count: nat) returns (out: seq<seq<real>>)
    requires |rows| == keep.Length && count == CountTrue(keep[..])
    ensures out == Filter(rows, keep[..])
  {
    out := seq(count, _ => seq(cols, _ => 0.0));
    var j := 0;
    for i := 0 to |rows|
      invariant |out| == count
      invariant j == CountTrue(keep[..i]) <= count
      invariant out[..j] == Filter(rows[..i], keep[..i])
    {
      FilterSnoc(rows, keep[..], i);
      CountTruePrefix(keep[..], i);
      if keep[i] {
        assert out[j := rows[i]][..j + 1] == out[..j] + [rows[i]];
        out := out[j := rows[i]];
        j := j + 1;
      }
    }
    assert rows[..|rows|] == rows && keep[..|rows|] == keep[..];
    assert out[..j] == out;
  }

  /** One iteration of pmp_simplify_polylines' loop: short polylines are
      returned as they are; otherwise both end rows are kept, the interior is
      marked by Douglas-Peucker, and the kept rows are copied out. */
  method SimplifyPolyline(polyline: Mat<real>, threshold: real) returns (result: Mat<real>)
    requires ValidPolyline(polyline)
    ensures result == Simplified(polyline, threshold)
  {
    var n := |polyline.rows|;
    if n < 3 {
      return polyline;
    }
    var keep := new bool[n](_ => false);
    keep[0] := true;
    keep[n - 1] := true;
    var pts := PlanarPoints(polyline.rows);
    RdpSimplify(pts, 0, n - 1, threshold, keep);
    assert keep[..] == KeepMask(polyline, threshold);
    var keptCount := CountKept(keep);
    var rows := CopyKept(polyline.rows, polyline.cols, keep, keptCount);
    result := Mat(polyline.cols, rows);
  }

  /** pmp_simplify_polylines: one result per input polyline, in input order. */
  method SimplifyPolylines(polylines: seq<Mat<real>>, threshold: real) returns (results: seq<Mat<real>>)
    requires forall i :: 0 <= i < |polylines| ==> ValidPolyline(polylines[i])
    ensures |results| == |polylines|
    ensures forall i :: 0 <= i < |polylines| ==> results[i] == Simplified(polylines[i], threshold)
  {
    results := [];
    for i := 0 to |polylines|
      invariant |results| == i
      invariant forall k :: 0 <= k < i ==> results[k] == Simplified(polylines[k], threshold)
    {
      var r := SimplifyPolyline(polylines[i], threshold);
      results := results + [r];
    }
  }

  // ---------------------------------------------------------------------------
  // Closest points (pmp_closest_points_on_polyline)
  // ---------------------------------------------------------------------------

  datatype Segment3 = Segment3(a: Point3, b: Point3)

  /** A row as a 3D point: z is column 2 for a 3-column matrix, else 0. */
  function RowPoint(row: seq<real>, cols: nat): Point3
    requires |row| >= 2 && (cols == 3 ==> |row| >= 3)
  {
    Point3(row[0], row[1], if cols == 3 then row[2] else 0.0)
  }

  ghost predicate PointMatrix(m: Mat<real>)
  {
    m.WellShaped() && 2 <= m.cols <= 3
  }

  /** The segments between consecutive rows, skipping zero-length ones. */
  function Segments(p: Mat<real>, n: nat): seq<Segment3>
    requires PointMatrix(p) && n <= |p.rows|
  {
    if n < 2 then []
    else
      var a := RowPoint(p.rows[n - 2], p.cols);
      var b := RowPoint(p.rows[n - 1], p.cols);
      Segments(p, n - 1) + (if a != b then [Segment3(a, b)] else [])
  }

  /** There are no segments exactly when every row is the same point as row 0;
      in particular a single-row polyline has none. */
  lemma {:induction false} NoSegmentsIffAllCoincide(p: Mat<real>, n: nat)
    requires PointMatrix(p) && 1 <= n <= |p.rows|
    ensures Segments(p, n) == [] <==>
              forall i :: 0 <= i < n ==> RowPoint(p.rows[i], p.cols) == RowPoint(p.rows[0], p.cols)
  {
    if n >= 2 {
      NoSegmentsIffAllCoincide(p, n - 1);
    }
  }

  /** The first `cols` coordinates of a point, as the result row holds them. */
  function OutputRow(c: Point3, cols: nat): seq<real>
    requires 2 <= cols <= 3
  {
    if cols == 3 then [c.x, c.y, c.z] else [c.x, c.y]
  }

  /** pmp_closest_points_on_polyline. `closest` stands for the AABB tree's
      closest-point query over the segments. */
  method ClosestPointsOnPolyline(queries: Mat<real>, polyline: Mat<real>,
                                 closest: (seq<Segment3>, Point3) -> Point3)
    returns (result: Mat<real>)
    requires PointMatrix(queries) && PointMatrix(polyline)
    ensures result.WellShaped()
    ensures |result.rows| == |queries.rows| && result.cols == Min(queries.cols, polyline.cols)
    ensures |polyline.rows| == 0 ==>
              forall i :: 0 <= i < |result.rows| ==> result.rows[i] == seq(result.cols, _ => 0.0)
    ensures |polyline.rows| >= 1 && Segments(polyline, |polyline.rows|) == [] ==>
              forall i :: 0 <= i < |result.rows| ==> result.rows[i] == polyline.rows[0][..result.cols]
    ensures Segments(polyline, |polyline.rows|) != [] ==>
              forall i :: 0 <= i < |result.rows| ==>
                result.rows[i] == OutputRow(closest(Segments(polyline, |polyline.rows|),
                                                    RowPoint(queries.rows[i], queries.cols)), result.cols)
  {
    var nQueries := |queries.rows|;
    var nPoly := |polyline.rows|;
    var outCols := Min(queries.cols, polyline.cols);

    if nPoly == 0 {
      return Mat(outCols, seq(nQueries, _ => seq(outCols, _ => 0.0)));
    }
    if nPoly == 1 {
      assert Segments(polyline, 1) == [];
      return Mat(outCols, seq(nQueries, _ => polyline.rows[0][..outCols]));
    }

    var segments: seq<Segment3> := [];
    for i := 0 to nPoly - 1
      invariant segments == Segments(polyline, i + 1)
    {
      var p1 := RowPoint(polyline.rows[i], polyline.cols);
      var p2 := RowPoint(polyline.rows[i + 1], polyline.cols);
      if p1 != p2 {
        segments := segments + [Segment3(p1, p2)];
      }
    }

    if segments == [] {
      return Mat(outCols, seq(nQueries, _ => polyline.rows[0][..outCols]));
    }

    var rows: seq<seq<real>> := [];
    for i := 0 to nQueries
      invariant |rows| == i
      invariant forall k :: 0 <= k < i ==>
                  rows[k] == OutputRow(closest(segments, RowPoint(queries.rows[k], queries.cols)), outCols)
    {
      var c := closest(segments, RowPoint(queries.rows[i], queries.cols));
      rows := rows + [OutputRow(c, outCols)];
    }
    result := Mat(outCols, rows);
  }
}
