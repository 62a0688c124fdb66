/** The repository's own logic in src/triangulation.cpp: the flood fill that
    gives every face of a constrained triangulation its nesting level, the
    in-domain test on that level, the assembly of the (TV, TF) result matrices,
    the vertex-info mapping of the plain Delaunay triangulation, and the seeds
    and size criterion handed to the mesh refiner. Building the triangulation,
    conforming it and refining it are CGAL's and enter as inputs. */
module Triangulation {
  import opened Types

  // ---------------------------------------------------------------------------
  // The triangulation data structure
  // ---------------------------------------------------------------------------

  /** A face: its three vertices, the face across each edge (edge i is the one
      opposite vertex i) and whether that edge is a constraint. */
  datatype Face = Face(vertex: seq<nat>, neighbor: seq<nat>, constrained: seq<bool>)

  /** Edge `index` of face `face` (CGAL's (Face_handle, int) pair). */
  datatype Edge = Edge(face: nat, index: nat)

  /** A 2D triangulation: the point of every vertex, its faces, and its
      infinite vertex and infinite face. */
  datatype Cdt = Cdt(points: seq<Point2>, infiniteVertex: nat, faces: seq<Face>, infiniteFace: nat)

  ghost predicate FaceShape(c: Cdt, face: Face)
  {
    && |face.vertex| == 3 && |face.neighbor| == 3 && |face.constrained| == 3
    && (forall t :: 0 <= t < 3 ==> face.vertex[t] < |c.points| && face.neighbor[t] < |c.faces|)
  }

  ghost predicate Shaped(c: Cdt)
  {
    && c.infiniteFace < |c.faces|
    && c.infiniteVertex < |c.points|
    && (forall f :: 0 <= f < |c.faces| ==> FaceShape(c, c.faces[f]))
  }

  /** The face across edge i of f. */
  function Nbr(c: Cdt, f: nat, i: nat): (g: nat)
    requires Shaped(c) && f < |c.faces| && i < 3
    ensures g < |c.faces|
  {
    c.faces[f].neighbor[i]
  }

  predicate IsConstrained(c: Cdt, f: nat, i: nat)
    requires Shaped(c) && f < |c.faces| && i < 3
  {
    c.faces[f].constrained[i]
  }

  /** The neighbour across edge i of f sees f across one of its own edges,
      carrying the same constraint flag (CGAL's mirror edge). */
  ghost predicate HasMirror(c: Cdt, f: nat, i: nat)
    requires Shaped(c) && f < |c.faces| && i < 3
  {
    var g := Nbr(c, f, i);
    exists j :: 0 <= j < 3 && Nbr(c, g, j) == f && IsConstrained(c, g, j) == IsConstrained(c, f, i)
  }

  ghost predicate Valid(c: Cdt)
  {
    && Shaped(c)
    && (forall f, i :: 0 <= f < |c.faces| && 0 <= i < 3 ==> HasMirror(c, f, i))
    && c.infiniteVertex in c.faces[c.infiniteFace].vertex
  }

  // ---------------------------------------------------------------------------
  // Nesting levels (FaceInfo)
  // ---------------------------------------------------------------------------

  /** The level of a face not yet reached by the flood fill. */
  const Unlabelled: int := -1

  /** C++'s `%` on int: the remainder truncates toward zero, so it takes the
      sign of the dividend. */
  function CppRemainder(a: int, b: int): (r: int)
    requires b > 0
    ensures a >= 0 ==> 0 <= r < b
    ensures a < 0 ==> -b < r <= 0
  {
    if a >= 0 then a % b else -((-a) % b)
  }

  /** FaceInfo::in_domain. */
  predicate InDomain(level: int)
  {
    CppRemainder(level, 2) == 1
  }

  /** A face is in the domain exactly when its level is odd and not negative:
      an unreached face (level -1) is not. */
  lemma InDomainIffOddLevel(level: int)
    ensures InDomain(level) <==> level >= 0 && level % 2 == 1
    ensures !InDomain(Unlabelled)
  {
  }

  /** Of two faces whose levels differ by one, exactly one is in the domain. */
  lemma InDomainAlternates(level: int)
    requires level >= 0
    ensures InDomain(level) != InDomain(level + 1)
  {
  }

  /** Faces joined by an unconstrained edge carry the same level. */
  ghost predicate SameAcrossUnconstrained(c: Cdt, lv: seq<int>)
    requires Shaped(c) && |lv| == |c.faces|
  {
    forall f, i :: 0 <= f < |lv| && 0 <= i < 3 && lv[f] != Unlabelled && !IsConstrained(c, f, i) ==>
      lv[Nbr(c, f, i)] == lv[f]
  }

  /** Every neighbour of a labelled face is labelled. */
  ghost predicate NeighboursLabelled(c: Cdt, lv: seq<int>)
    requires Shaped(c) && |lv| == |c.faces|
  {
    forall f, i :: 0 <= f < |lv| && 0 <= i < 3 && lv[f] != Unlabelled ==> lv[Nbr(c, f, i)] != Unlabelled
  }

  /** Across any edge between two labelled faces the level rises by at most one. */
  ghost predicate AdjacentClose(c: Cdt, lv: seq<int>)
    requires Shaped(c) && |lv| == |c.faces|
  {
    forall f, i :: 0 <= f < |lv| && 0 <= i < 3 && lv[f] != Unlabelled && lv[Nbr(c, f, i)] != Unlabelled ==>
      lv[Nbr(c, f, i)] <= lv[f] + 1
  }

  /** b is reached from a along a path of unconstrained edges. */
  ghost predicate FreeReach(c: Cdt, a: nat, b: nat)
    requires Shaped(c)
  {
    exists path :: IsPath(c, path, true) && |path| > 0 && path[0] == a && path[|path| - 1] == b
  }

  /** Where the level of a labelled face comes from: level 0 is the region
      reached from the infinite face without crossing a constraint; level k > 0
      is the region reached, without crossing a constraint, from the far side
      of a constrained edge whose near face has level k - 1. */
  ghost predicate HasOrigin(c: Cdt, lv: seq<int>, f: nat)
    requires Shaped(c) && |lv| == |c.faces| && f < |lv|
  {
    || (lv[f] == 0 && FreeReach(c, c.infiniteFace, f))
    || (lv[f] > 0 &&
        exists g, i :: 0 <= g < |lv| && 0 <= i < 3 && IsConstrained(c, g, i) &&
                       lv[g] == lv[f] - 1 && lv[Nbr(c, g, i)] == lv[f] && FreeReach(c, Nbr(c, g, i), f))
  }

  /** Every labelled face has an origin. */
  ghost predicate Justified(c: Cdt, lv: seq<int>)
    requires Shaped(c) && |lv| == |c.faces|
  {
    forall f {:trigger HasOrigin(c, lv, f)} :: 0 <= f < |lv| && lv[f] != Unlabelled ==> HasOrigin(c, lv, f)
  }

  /** g is the neighbour of some face of `prior` across an unconstrained edge. */
  ghost predicate ReachedFrom(c: Cdt, prior: seq<nat>, g: nat)
    requires Shaped(c)
  {
    exists j, i :: 0 <= j < |prior| && 0 <= i < 3 && prior[j] < |c.faces| &&
                   !IsConstrained(c, prior[j], i) && Nbr(c, prior[j], i) == g
  }

  lemma ReachedFromGrows(c: Cdt, prior: seq<nat>, more: seq<nat>, g: nat)
    requires Shaped(c) && ReachedFrom(c, prior, g)
    ensures ReachedFrom(c, prior + more, g)
  {
    var j, i :| 0 <= j < |prior| && 0 <= i < 3 && prior[j] < |c.faces| &&
                !IsConstrained(c, prior[j], i) && Nbr(c, prior[j], i) == g;
    assert (prior + more)[j] == prior[j];
  }

  function CountUnlabelled(lv: seq<int>): nat
  {
    if lv == [] then 0
    else CountUnlabelled(lv[..|lv| - 1]) + (if lv[|lv| - 1] == Unlabelled then 1 else 0)
  }

  /** Labelling faces (and unlabelling none) lowers the count of unlabelled faces. */
  lemma {:induction false} LabellingShrinksCount(a: seq<int>, b: seq<int>, f: nat)
    requires |a| == |b|
    requires forall k :: 0 <= k < |b| && b[k] == Unlabelled ==> a[k] == Unlabelled
    ensures CountUnlabelled(b) <= CountUnlabelled(a)
    ensures f < |a| && a[f] == Unlabelled && b[f] != Unlabelled ==> CountUnlabelled(b) < CountUnlabelled(a)
  {
    if a != [] {
      var n := |a| - 1;
      LabellingShrinksCount(a[..n], b[..n], f);
    }
  }

  // ---------------------------------------------------------------------------
  // mark_domains(triangulation, start, index, border)
  // ---------------------------------------------------------------------------

  /** The unlabelled faces across the unconstrained edges 0 .. n-1 of f, in
      edge order: what the edge loop appends to the queue. */
  function Crossed(c: Cdt, lv: seq<int>, f: nat, n: nat): seq<nat>
    requires Shaped(c) && |lv| == |c.faces| && f < |c.faces| && n <= 3
  {
    if n == 0 then []
    else
      Crossed(c, lv, f, n - 1) +
      (if lv[Nbr(c, f, n - 1)] == Unlabelled && !IsConstrained(c, f, n - 1) then [Nbr(c, f, n - 1)] else [])
  }

  /** The constrained edges among 0 .. n-1 of f with an unlabelled neighbour:
      what the edge loop appends to the border. */
  function Blocked(c: Cdt, lv: seq<int>, f: nat, n: nat): seq<Edge>
    requires Shaped(c) && |lv| == |c.faces| && f < |c.faces| && n <= 3
  {
    if n == 0 then []
    else
      Blocked(c, lv, f, n - 1) +
      (if lv[Nbr(c, f, n - 1)] == Unlabelled && IsConstrained(c, f, n - 1) then [Edge(f, n - 1)] else [])
  }

  /** Crossed and Blocked hold exactly the unlabelled neighbours across
      unconstrained edges and the constrained edges to unlabelled neighbours. */
  lemma {:induction false} CrossedBlockedMembers(c: Cdt, lv: seq<int>, f: nat, n: nat)
    requires Shaped(c) && |lv| == |c.faces| && f < |c.faces| && n <= 3
    ensures forall i :: 0 <= i < n && lv[Nbr(c, f, i)] == Unlabelled && !IsConstrained(c, f, i) ==>
              Nbr(c, f, i) in Crossed(c, lv, f, n)
    ensures forall i :: 0 <= i < n && lv[Nbr(c, f, i)] == Unlabelled && IsConstrained(c, f, i) ==>
              Edge(f, i) in Blocked(c, lv, f, n)
    ensures forall g :: g in Crossed(c, lv, f, n) ==> g < |c.faces| && ReachedFrom(c, [f], g)
    ensures forall e :: e in Blocked(c, lv, f, n) ==> e.face == f && e.index < 3 && IsConstrained(c, f, e.index)
  {
    if n > 0 {
      CrossedBlockedMembers(c, lv, f, n - 1);
      assert [f][0] == f;
    }
  }

  /** Labels one popped face and runs its edge loop. */
  method LabelFace(c: Cdt, level: array<int>, face: nat, index: int, queue: seq<nat>, border: seq<Edge>)
    returns (newQueue: seq<nat>, newBorder: seq<Edge>)
    requires Shaped(c) && level.Length == |c.faces| && face < |c.faces|
    modifies level
    ensures level[..] == old(level[..])[face := index]
    ensures newQueue == queue + Crossed(c, level[..], face, 3)
    ensures newBorder == border + Blocked(c, level[..], face, 3)
  {
    level[face] := index;
    newQueue, newBorder := queue, border;
    for i := 0 to 3
      invariant newQueue == queue + Crossed(c, level[..], face, i)
      invariant newBorder == border + Blocked(c, level[..], face, i)
    {
      var nbr := c.faces[face].neighbor[i];
      if level[nbr] == Unlabelled {
        if c.faces[face].constrained[i] {
          newBorder := newBorder + [Edge(face, i)];
        } else {
          newQueue := newQueue + [nbr];
        }
      }
    }
  }

  /** The labels of the flood fill so far: `order` lists, without repeats and
      in labelling order, the faces it has labelled, all with `index`; it
      starts at `start` and every later face is reached across an
      unconstrained edge of an earlier one. No other label has changed. */
  ghost predicate LabelsTracked(c: Cdt, lv0: seq<int>, lv: seq<int>, start: nat, index: int, order: seq<nat>)
    requires Shaped(c) && |lv0| == |lv| == |c.faces|
  {
    && (forall f :: 0 <= f < |lv| ==> (f in order <==> lv0[f] == Unlabelled && lv[f] != Unlabelled))
    && (forall f :: 0 <= f < |lv| && f !in order ==> lv[f] == lv0[f])
    && (forall k :: 0 <= k < |order| ==> order[k] < |lv| && lv[order[k]] == index)
    && (forall j, k :: 0 <= j < k < |order| ==> order[j] != order[k])
    && (order != [] ==> order[0] == start)
    && (forall k :: 0 < k < |order| ==> ReachedFrom(c, order[..k], order[k]))
  }

  /** Every queued face is `start` or reached from a labelled face. */
  ghost predicate QueueLinked(c: Cdt, start: nat, order: seq<nat>, queue: seq<nat>)
    requires Shaped(c)
  {
    forall k :: 0 <= k < |queue| ==> queue[k] < |c.faces| && (queue[k] == start || ReachedFrom(c, order, queue[k]))
  }

  /** The border has grown only by constrained edges of labelled faces, and
      holds each such edge whose neighbour is still unlabelled. */
  ghost predicate BorderTracked(c: Cdt, lv: seq<int>, order: seq<nat>, border: seq<Edge>, newBorder: seq<Edge>)
    requires Shaped(c) && |lv| == |c.faces|
    requires forall k :: 0 <= k < |order| ==> order[k] < |c.faces|
  {
    && |border| <= |newBorder| && newBorder[..|border|] == border
    && (forall k :: |border| <= k < |newBorder| ==>
          newBorder[k].face in order && newBorder[k].index < 3 &&
          IsConstrained(c, newBorder[k].face, newBorder[k].index))
    && (forall f, i :: f in order && 0 <= i < 3 && IsConstrained(c, f, i) && lv[Nbr(c, f, i)] == Unlabelled ==>
          Edge(f, i) in newBorder)
  }

  /** Across an unconstrained edge, a labelled face's neighbour has its label
      or waits in the queue. */
  ghost predicate FreeEdgesPending(c: Cdt, lv: seq<int>, index: int, order: seq<nat>, queue: seq<nat>)
    requires Shaped(c) && |lv| == |c.faces|
    requires forall k :: 0 <= k < |order| ==> order[k] < |c.faces|
  {
    forall f, i :: f in order && 0 <= i < 3 && !IsConstrained(c, f, i) ==>
      lv[Nbr(c, f, i)] == index || (lv[Nbr(c, f, i)] == Unlabelled && Nbr(c, f, i) in queue)
  }

  /** A face still unlabelled has no labelled neighbour across an unconstrained
      edge, when labelled faces already agree across unconstrained edges. */
  lemma UnlabelledHasNoLabelledFreeNeighbour(c: Cdt, lv: seq<int>, f: nat, i: nat)
    requires Valid(c) && |lv| == |c.faces| && f < |c.faces| && i < 3
    requires SameAcrossUnconstrained(c, lv) && lv[f] == Unlabelled && !IsConstrained(c, f, i)
    ensures lv[Nbr(c, f, i)] == Unlabelled
  {
    var j := MirrorIndex(c, f, i);
  }

  /** When the queue is empty, labelled faces still agree across unconstrained edges. */
  lemma FillKeepsLevelsAgreeing(c: Cdt, lv0: seq<int>, lv: seq<int>, start: nat, index: int, order: seq<nat>)
    requires Valid(c) && |lv0| == |lv| == |c.faces| && index != Unlabelled
    requires SameAcrossUnconstrained(c, lv0)
    requires LabelsTracked(c, lv0, lv, start, index, order)
    requires FreeEdgesPending(c, lv, index, order, [])
    ensures SameAcrossUnconstrained(c, lv)
  {
    forall f, i | 0 <= f < |lv| && 0 <= i < 3 && lv[f] != Unlabelled && !IsConstrained(c, f, i)
      ensures lv[Nbr(c, f, i)] == lv[f]
    {
      if f !in order {
        var j := MirrorIndex(c, f, i);
        assert Nbr(c, f, i) !in order;
      }
    }
  }

  lemma StepLabels(c: Cdt, lv0: seq<int>, lv: seq<int>, lv': seq<int>, start: nat, index: int,
                   order: seq<nat>, q: nat)
    requires Shaped(c) && |lv0| == |lv| == |c.faces| && q < |c.faces| && index != Unlabelled
    requires LabelsTracked(c, lv0, lv, start, index, order)
    requires lv[q] == Unlabelled && lv' == lv[q := index]
    requires if order == [] then q == start else ReachedFrom(c, order, q)
    ensures LabelsTracked(c, lv0, lv', start, index, order + [q])
  {
    var order' := order + [q];
    assert q !in order;
    forall f | 0 <= f < |lv'|
      ensures (f in order' <==> lv0[f] == Unlabelled && lv'[f] != Unlabelled)
      ensures f !in order' ==> lv'[f] == lv0[f]
    {
    }
    forall k | 0 <= k < |order'|
      ensures order'[k] < |lv'| && lv'[order'[k]] == index
    {
      if k < |order| {
        assert order'[k] == order[k];
      }
    }
    forall j, k | 0 <= j < k < |order'|
      ensures order'[j] != order'[k]
    {
      if k < |order| {
        assert order'[j] == order[j] && order'[k] == order[k];
      }
    }
    StepReached(c, order, q);
  }

  /** Appending q, reached from the faces before it, keeps each face of the
      order reached from its predecessors. */
  lemma StepReached(c: Cdt, order: seq<nat>, q: nat)
    requires Shaped(c)
    requires forall k :: 0 < k < |order| ==> ReachedFrom(c, order[..k], order[k])
    requires order != [] ==> ReachedFrom(c, order, q)
    ensures forall k :: 0 < k < |order + [q]| ==> ReachedFrom(c, (order + [q])[..k], (order + [q])[k])
  {
    var order' := order + [q];
    forall k | 0 < k < |order'|
      ensures ReachedFrom(c, order'[..k], order'[k])
    {
      if k < |order| {
        assert order'[..k] == order[..k];
        assert order'[k] == order[k];
      } else {
        assert order'[..k] == order;
      }
    }
  }

  lemma StepQueue(c: Cdt, lv': seq<int>, start: nat, order: seq<nat>, queue: seq<nat>, q: nat)
    requires Shaped(c) && |lv'| == |c.faces| && queue != [] && queue[0] == q && q < |c.faces|
    requires QueueLinked(c, start, order, queue)
    ensures QueueLinked(c, start, order + [q], queue[1..] + Crossed(c, lv', q, 3))
  {
    var order' := order + [q];
    var queue' := queue[1..] + Crossed(c, lv', q, 3);
    CrossedBlockedMembers(c, lv', q, 3);
    forall k | 0 <= k < |queue'|
      ensures queue'[k] < |c.faces| && (queue'[k] == start || ReachedFrom(c, order', queue'[k]))
    {
      if k < |queue| - 1 {
        assert queue'[k] == queue[k + 1];
        if queue'[k] != start {
          ReachedFromGrows(c, order, [q], queue'[k]);
        }
      } else {
        var g := queue'[k];
        assert g in Crossed(c, lv', q, 3);
        var j, i :| 0 <= j < 1 && 0 <= i < 3 && [q][j] < |c.faces| && !IsConstrained(c, [q][j], i) && Nbr(c, [q][j], i) == g;
        assert order'[|order|] == q;
      }
    }
  }

  lemma StepBorder(c: Cdt, lv: seq<int>, lv': seq<int>, order: seq<nat>, q: nat, border: seq<Edge>, newBorder: seq<Edge>)
    requires Shaped(c) && |lv| == |lv'| == |c.faces| && q < |c.faces|
    requires forall k :: 0 <= k < |order| ==> order[k] < |c.faces|
    requires BorderTracked(c, lv, order, border, newBorder)
    requires forall f :: 0 <= f < |lv| && lv'[f] == Unlabelled ==> lv[f] == Unlabelled
    ensures BorderTracked(c, lv', order + [q], border, newBorder + Blocked(c, lv', q, 3))
  {
    var newBorder' := newBorder + Blocked(c, lv', q, 3);
    CrossedBlockedMembers(c, lv', q, 3);
    forall k | |border| <= k < |newBorder'|
      ensures newBorder'[k].face in order + [q] && newBorder'[k].index < 3 &&
              IsConstrained(c, newBorder'[k].face, newBorder'[k].index)
    {
      if k >= |newBorder| {
        assert newBorder'[k] in Blocked(c, lv', q, 3);
      } else {
        assert newBorder'[k] == newBorder[k];
      }
    }
    assert newBorder'[..|border|] == border;
  }

  lemma StepFreeEdges(c: Cdt, lv0: seq<int>, lv: seq<int>, lv': seq<int>, start: nat, index: int,
                      order: seq<nat>, queue: seq<nat>)
    requires Valid(c) && |lv0| == |lv| == |c.faces| && index != Unlabelled
    requires SameAcrossUnconstrained(c, lv0)
    requires LabelsTracked(c, lv0, lv, start, index, order)
    requires FreeEdgesPending(c, lv, index, order, queue)
    requires queue != [] && queue[0] < |c.faces| && lv[queue[0]] == Unlabelled
    requires lv' == lv[queue[0] := index]
    ensures forall k :: 0 <= k < |order + [queue[0]]| ==> (order + [queue[0]])[k] < |c.faces|
    ensures FreeEdgesPending(c, lv', index, order + [queue[0]], queue[1..] + Crossed(c, lv', queue[0], 3))
  {
    var q := queue[0];
    var order' := order + [q];
    var queue' := queue[1..] + Crossed(c, lv', q, 3);
    CrossedBlockedMembers(c, lv', q, 3);
    assert q !in order && lv0[q] == Unlabelled;
    forall f, i | f in order' && 0 <= i < 3 && !IsConstrained(c, f, i)
      ensures lv'[Nbr(c, f, i)] == index || (lv'[Nbr(c, f, i)] == Unlabelled && Nbr(c, f, i) in queue')
    {
      var g := Nbr(c, f, i);
      if f == q {
        if lv'[g] != Unlabelled && lv'[g] != index {
          assert g !in order';
          UnlabelledHasNoLabelledFreeNeighbour(c, lv0, q, i);
        }
      } else if g != q && lv[g] == Unlabelled {
        assert g in queue[1..];
      }
    }
  }

  /** One iteration of the fill's queue loop on a face that is still
      unlabelled: label it and queue or border its edges. */
  method VisitFace(c: Cdt, level: array<int>, start: nat, index: int, queue: seq<nat>,
                   ghost border: seq<Edge>, newBorder: seq<Edge>, ghost lv0: seq<int>, ghost order: seq<nat>)
    returns (queue': seq<nat>, newBorder': seq<Edge>)
    requires Valid(c) && level.Length == |c.faces| == |lv0| && index != Unlabelled
    requires SameAcrossUnconstrained(c, lv0)
    requires queue != [] && queue[0] < |c.faces| && level[queue[0]] == Unlabelled
    requires order == [] ==> queue[0] == start
    requires LabelsTracked(c, lv0, level[..], start, index, order)
    requires QueueLinked(c, start, order, queue)
    requires BorderTracked(c, level[..], order, border, newBorder)
    requires FreeEdgesPending(c, level[..], index, order, queue)
    modifies level
    ensures level[..] == old(level[..])[queue[0] := index]
    ensures LabelsTracked(c, lv0, level[..], start, index, order + [queue[0]])
    ensures QueueLinked(c, start, order + [queue[0]], queue')
    ensures BorderTracked(c, level[..], order + [queue[0]], border, newBorder')
    ensures FreeEdgesPending(c, level[..], index, order + [queue[0]], queue')
    ensures CountUnlabelled(level[..]) < CountUnlabelled(old(level[..]))
  {
    var face := queue[0];
    ghost var lv := level[..];
    if order != [] && face == start {
      assert false;
    }
    queue', newBorder' := LabelFace(c, level, face, index, queue[1..], newBorder);
    StepLabels(c, lv0, lv, level[..], start, index, order, face);
    StepQueue(c, level[..], start, order, queue, face);
    StepBorder(c, lv, level[..], order, face, border, newBorder);
    StepFreeEdges(c, lv0, lv, level[..], start, index, order, queue);
    LabellingShrinksCount(lv, level[..], face);
  }

  /** mark_domains(triangulation, start, index, border): a breadth-first flood
      fill from `start` that gives `index` to every unlabelled face it reaches
      across unconstrained edges and appends to `border` the constrained edges
      it stops at. Nothing happens when `start` is already labelled. */
  method MarkDomain(c: Cdt, level: array<int>, start: nat, index: int, border: seq<Edge>)
    returns (newBorder: seq<Edge>, ghost order: seq<nat>)
    requires Valid(c) && level.Length == |c.faces| && start < |c.faces| && index != Unlabelled
    requires SameAcrossUnconstrained(c, level[..])
    modifies level
    ensures SameAcrossUnconstrained(c, level[..])
    // labels go only from Unlabelled to `index`, on the faces of `order`, each
    // reached across an unconstrained edge of an earlier one
    ensures LabelsTracked(c, old(level[..]), level[..], start, index, order)
    // a labelled start is a no-op; otherwise the fill starts at `start`
    ensures old(level[start]) != Unlabelled ==> order == [] && newBorder == border
    ensures old(level[start]) == Unlabelled ==> order != [] && order[0] == start
    // the border grows only by constrained edges of newly labelled faces, and
    // holds every such edge whose neighbour is still unlabelled
    ensures BorderTracked(c, level[..], order, border, newBorder)
  {
    ghost var lv0 := level[..];
    order := [];
    newBorder := border;
    if level[start] != Unlabelled {
      return;
    }
    var queue := [start];
    while queue != []
      invariant |lv0| == level.Length && lv0[start] == Unlabelled
      invariant LabelsTracked(c, lv0, level[..], start, index, order)
      invariant QueueLinked(c, start, order, queue)
      invariant BorderTracked(c, level[..], order, border, newBorder)
      invariant FreeEdgesPending(c, level[..], index, order, queue)
      invariant order == [] ==> queue == [start] && level[..] == lv0
      decreases CountUnlabelled(level[..]), |queue|
    {
      var face := queue[0];
      if level[face] == Unlabelled {
        queue, newBorder := VisitFace(c, level, start, index, queue, border, newBorder, lv0, order);
        order := order + [face];
      } else {
        queue := queue[1..];
        if order == [] {
          assert false;
        }
      }
    }
    FillKeepsLevelsAgreeing(c, lv0, level[..], start, index, order);
  }

  /** The index j of f's mirror edge in the neighbour across edge i. */
  function MirrorIndex(c: Cdt, f: nat, i: nat): (j: nat)
    requires Valid(c) && f < |c.faces| && i < 3
    ensures j < 3 && Nbr(c, Nbr(c, f, i), j) == f && IsConstrained(c, Nbr(c, f, i), j) == IsConstrained(c, f, i)
  {
    assert HasMirror(c, f, i);
    var g := Nbr(c, f, i);
    if Nbr(c, g, 0) == f && IsConstrained(c, g, 0) == IsConstrained(c, f, i) then 0
    else if Nbr(c, g, 1) == f && IsConstrained(c, g, 1) == IsConstrained(c, f, i) then 1
    else 2
  }

  /** Extending a free path by one more unconstrained edge. */
  lemma FreeReachStep(c: Cdt, a: nat, b: nat, i: nat)
    requires Shaped(c) && b < |c.faces| && i < 3 && !IsConstrained(c, b, i) && FreeReach(c, a, b)
    ensures FreeReach(c, a, Nbr(c, b, i))
  {
    var path :| IsPath(c, path, true) && |path| > 0 && path[0] == a && path[|path| - 1] == b;
    var path' := path + [Nbr(c, b, i)];
    assert Step(c, path'[|path|-1], path'[|path|], true);
    forall k | 0 < k < |path|
      ensures Step(c, path'[k - 1], path'[k], true)
    {
      assert path'[k - 1] == path[k - 1] && path'[k] == path[k];
    }
  }

  lemma {:induction false} TrackedReachAt(c: Cdt, lv0: seq<int>, lv: seq<int>, start: nat, index: int,
                                          order: seq<nat>, k: nat)
    requires Shaped(c) && |lv0| == |lv| == |c.faces|
    requires LabelsTracked(c, lv0, lv, start, index, order) && k < |order|
    ensures FreeReach(c, start, order[k])
  {
    if k == 0 {
      assert IsPath(c, [start], true);
    } else {
      assert ReachedFrom(c, order[..k], order[k]);
      var j, i :| 0 <= j < k && 0 <= i < 3 && order[..k][j] < |c.faces| &&
                  !IsConstrained(c, order[..k][j], i) && Nbr(c, order[..k][j], i) == order[k];
      TrackedReachAt(c, lv0, lv, start, index, order, j);
      FreeReachStep(c, start, order[j], i);
    }
  }

  /** Every face a fill labels is reached from its start across unconstrained edges. */
  lemma TrackedReach(c: Cdt, lv0: seq<int>, lv: seq<int>, start: nat, index: int, order: seq<nat>)
    requires Shaped(c) && |lv0| == |lv| == |c.faces|
    requires LabelsTracked(c, lv0, lv, start, index, order)
    ensures forall f :: f in order ==> FreeReach(c, start, f)
  {
    forall f | f in order
      ensures FreeReach(c, start, f)
    {
      var k :| 0 <= k < |order| && order[k] == f;
      TrackedReachAt(c, lv0, lv, start, index, order, k);
    }
  }

  // ---------------------------------------------------------------------------
  // mark_domains(triangulation)
  // ---------------------------------------------------------------------------

  /** Every label is a level (>= 0) or Unlabelled. */
  ghost predicate LevelsInRange(lv: seq<int>)
  {
    forall f :: 0 <= f < |lv| ==> lv[f] >= Unlabelled
  }

  /** Every border edge is a constrained edge of a labelled face. */
  ghost predicate BorderSound(c: Cdt, lv: seq<int>, border: seq<Edge>)
    requires Shaped(c) && |lv| == |c.faces|
  {
    forall k :: 0 <= k < |border| ==>
      border[k].face < |lv| && border[k].index < 3 &&
      IsConstrained(c, border[k].face, border[k].index) && lv[border[k].face] >= 0
  }

  /** Every edge from a labelled face to an unlabelled one waits in the border. */
  ghost predicate BorderComplete(c: Cdt, lv: seq<int>, border: seq<Edge>)
    requires Shaped(c) && |lv| == |c.faces|
  {
    forall f, i :: 0 <= f < |lv| && 0 <= i < 3 && lv[f] != Unlabelled && lv[Nbr(c, f, i)] == Unlabelled ==>
      Edge(f, i) in border
  }

  /** The border list is a FIFO queue ordered by level: the near faces'
      levels never decrease along it, and no face is more than one level above
      the near face of its front edge. */
  ghost predicate BorderFifo(lv: seq<int>, border: seq<Edge>)
  {
    && (forall j, k :: 0 <= j < k < |border| && border[j].face < |lv| && border[k].face < |lv| ==>
          lv[border[j].face] <= lv[border[k].face])
    && (border != [] && border[0].face < |lv| ==> forall f :: 0 <= f < |lv| ==> lv[f] <= lv[border[0].face] + 1)
  }

  /** The invariant of the border loop. */
  ghost predicate DomainsInvariant(c: Cdt, lv: seq<int>, border: seq<Edge>)
    requires Shaped(c) && |lv| == |c.faces|
  {
    && LevelsInRange(lv)
    && lv[c.infiniteFace] == 0
    && SameAcrossUnconstrained(c, lv)
    && AdjacentClose(c, lv)
    && Justified(c, lv)
    && BorderSound(c, lv, border)
    && BorderComplete(c, lv, border)
    && BorderFifo(lv, border)
  }

  /** The first fill, from the infinite face with level 0 over an all-unlabelled
      triangulation, establishes the loop invariant. */
  lemma FirstFillEstablishes(c: Cdt, lv0: seq<int>, lv: seq<int>, order: seq<nat>, border: seq<Edge>)
    requires Valid(c) && |lv0| == |lv| == |c.faces|
    requires forall f :: 0 <= f < |lv0| ==> lv0[f] == Unlabelled
    requires SameAcrossUnconstrained(c, lv)
    requires LabelsTracked(c, lv0, lv, c.infiniteFace, 0, order)
    requires order != [] && order[0] == c.infiniteFace
    requires BorderTracked(c, lv, order, [], border)
    ensures DomainsInvariant(c, lv, border)
  {
    assert forall f :: 0 <= f < |lv| ==> lv[f] == 0 || lv[f] == Unlabelled;
    forall f, i | 0 <= f < |lv| && 0 <= i < 3 && lv[f] != Unlabelled && lv[Nbr(c, f, i)] == Unlabelled
      ensures Edge(f, i) in border
    {
      assert f in order;
    }
    TrackedReach(c, lv0, lv, c.infiniteFace, 0, order);
    forall f | 0 <= f < |lv| && lv[f] != Unlabelled
      ensures HasOrigin(c, lv, f)
    {
      assert f in order;
    }
    forall k | 0 <= k < |border|
      ensures border[k].face < |lv| && lv[border[k].face] == 0
    {
      assert border[k].face in order;
    }
  }

  /** Popping a border edge whose far side is already labelled keeps the invariant. */
  lemma PopLabelledKeeps(c: Cdt, lv: seq<int>, edge: Edge, rest: seq<Edge>)
    requires Shaped(c) && |lv| == |c.faces|
    requires DomainsInvariant(c, lv, [edge] + rest)
    requires edge.face < |lv| && edge.index < 3 && lv[Nbr(c, edge.face, edge.index)] != Unlabelled
    ensures DomainsInvariant(c, lv, rest)
  {
    PopKeepsSound(c, lv, edge, rest);
    PopKeepsComplete(c, lv, edge, rest);
    PopKeepsFifo(lv, edge, rest);
  }

  lemma PopKeepsFifo(lv: seq<int>, edge: Edge, rest: seq<Edge>)
    requires BorderFifo(lv, [edge] + rest)
    requires edge.face < |lv| && forall k :: 0 <= k < |rest| ==> rest[k].face < |lv|
    ensures BorderFifo(lv, rest)
  {
    var border := [edge] + rest;
    forall j, k | 0 <= j < k < |rest|
      ensures lv[rest[j].face] <= lv[rest[k].face]
    {
      assert rest[j] == border[j + 1] && rest[k] == border[k + 1];
    }
    if rest != [] {
      assert rest[0] == border[1] && border[0] == edge;
    }
  }

  lemma PopKeepsSound(c: Cdt, lv: seq<int>, edge: Edge, rest: seq<Edge>)
    requires Shaped(c) && |lv| == |c.faces|
    requires BorderSound(c, lv, [edge] + rest)
    ensures BorderSound(c, lv, rest)
  {
    forall k | 0 <= k < |rest|
      ensures rest[k].face < |lv| && rest[k].index < 3 &&
              IsConstrained(c, rest[k].face, rest[k].index) && lv[rest[k].face] >= 0
    {
      assert rest[k] == ([edge] + rest)[k + 1];
    }
  }

  lemma PopKeepsComplete(c: Cdt, lv: seq<int>, edge: Edge, rest: seq<Edge>)
    requires Shaped(c) && |lv| == |c.faces|
    requires BorderComplete(c, lv, [edge] + rest)
    requires edge.face < |lv| && edge.index < 3 && lv[Nbr(c, edge.face, edge.index)] != Unlabelled
    ensures BorderComplete(c, lv, rest)
  {
    forall f, i | 0 <= f < |lv| && 0 <= i < 3 && lv[f] != Unlabelled && lv[Nbr(c, f, i)] == Unlabelled
      ensures Edge(f, i) in rest
    {
      assert Edge(f, i) in [edge] + rest;
      assert Edge(f, i) != edge;
    }
  }

  /** The origin of one face after a fill across `edge`: the edge itself for a
      newly labelled face, the old origin for any other labelled face. */
  lemma OriginAfterFill(c: Cdt, lv: seq<int>, lv': seq<int>, edge: Edge, newly: set<nat>, f: nat)
    requires Shaped(c) && |lv| == |lv'| == |c.faces| && f < |lv'| && lv'[f] != Unlabelled
    requires Justified(c, lv)
    requires edge.face < |lv| && edge.index < 3 && IsConstrained(c, edge.face, edge.index) && lv[edge.face] >= 0
    requires forall g :: 0 <= g < |lv| ==> (g in newly <==> lv[g] == Unlabelled && lv'[g] != Unlabelled)
    requires forall g :: 0 <= g < |lv| && g !in newly ==> lv'[g] == lv[g]
    requires forall g :: g in newly ==> g < |lv| && lv'[g] == lv[edge.face] + 1 && FreeReach(c, Nbr(c, edge.face, edge.index), g)
    requires Nbr(c, edge.face, edge.index) in newly
    ensures HasOrigin(c, lv', f)
  {
    if f in newly {
      var g, i := edge.face, edge.index;
      assert lv'[g] == lv'[f] - 1 && lv'[Nbr(c, g, i)] == lv'[f] && FreeReach(c, Nbr(c, g, i), f);
    } else {
      assert HasOrigin(c, lv, f);
      if lv[f] > 0 {
        var g, i :| 0 <= g < |lv| && 0 <= i < 3 && IsConstrained(c, g, i) &&
                    lv[g] == lv[f] - 1 && lv[Nbr(c, g, i)] == lv[f] && FreeReach(c, Nbr(c, g, i), f);
        assert lv'[g] == lv'[f] - 1 && lv'[Nbr(c, g, i)] == lv'[f];
      }
    }
  }

  /** Flooding the far side of a popped border edge with the near side's level
      plus one gives every newly labelled face that edge as its origin and
      leaves every other face's origin in place. */
  lemma FillAcrossJustified(c: Cdt, lv: seq<int>, lv': seq<int>, edge: Edge, order: seq<nat>)
    requires Valid(c) && |lv| == |lv'| == |c.faces|
    requires Justified(c, lv)
    requires edge.face < |lv| && edge.index < 3 && IsConstrained(c, edge.face, edge.index) && lv[edge.face] >= 0
    requires LabelsTracked(c, lv, lv', Nbr(c, edge.face, edge.index), lv[edge.face] + 1, order)
    requires order != [] && order[0] == Nbr(c, edge.face, edge.index)
    ensures Justified(c, lv')
  {
    var newly := set k | k in order;
    TrackedReach(c, lv, lv', Nbr(c, edge.face, edge.index), lv[edge.face] + 1, order);
    forall f | 0 <= f < |lv'| && lv'[f] != Unlabelled
      ensures HasOrigin(c, lv', f)
    {
      OriginAfterFill(c, lv, lv', edge, newly, f);
    }
  }

  /** ... keeps adjacent levels within one of each other: the new region's
      level is one above the border's front, and every face next to it is on
      the border, so at least at the front's level. */
  lemma FillAcrossClose(c: Cdt, lv: seq<int>, lv': seq<int>, edge: Edge, rest: seq<Edge>, order: seq<nat>)
    requires Valid(c) && |lv| == |lv'| == |c.faces|
    requires AdjacentClose(c, lv) && BorderSound(c, lv, [edge] + rest) && BorderComplete(c, lv, [edge] + rest)
    requires BorderFifo(lv, [edge] + rest)
    requires edge.face < |lv| && edge.index < 3
    requires LabelsTracked(c, lv, lv', Nbr(c, edge.face, edge.index), lv[edge.face] + 1, order)
    ensures AdjacentClose(c, lv')
  {
    var border := [edge] + rest;
    assert border[0] == edge;
    forall f, i | 0 <= f < |lv'| && 0 <= i < 3 && lv'[f] != Unlabelled && lv'[Nbr(c, f, i)] != Unlabelled
      ensures lv'[Nbr(c, f, i)] <= lv'[f] + 1
    {
      var h := Nbr(c, f, i);
      if f !in order && h in order {
        assert Edge(f, i) in border;
        var k :| 0 <= k < |border| && border[k] == Edge(f, i);
        assert lv[border[0].face] <= lv[border[k].face];
      }
    }
  }

  /** ... and keeps the border ordered: the edges it appends all start at the
      new level, which is at least that of every edge already queued. */
  lemma FillAcrossFifo(c: Cdt, lv: seq<int>, lv': seq<int>, edge: Edge, rest: seq<Edge>,
                       order: seq<nat>, newBorder: seq<Edge>)
    requires Shaped(c) && |lv| == |lv'| == |c.faces|
    requires BorderSound(c, lv, [edge] + rest) && BorderFifo(lv, [edge] + rest)
    requires edge.face < |lv|
    requires LabelsTracked(c, lv, lv', Nbr(c, edge.face, edge.index), lv[edge.face] + 1, order)
    requires BorderTracked(c, lv', order, rest, newBorder)
    ensures BorderFifo(lv', newBorder)
  {
    var border := [edge] + rest;
    var level := lv[edge.face] + 1;
    assert border[0] == edge;
    forall k | 0 <= k < |newBorder|
      ensures newBorder[k].face < |lv'|
      ensures k < |rest| ==> newBorder[k] == border[k + 1] && lv'[newBorder[k].face] == lv[border[k + 1].face]
      ensures k < |rest| ==> lv[edge.face] <= lv'[newBorder[k].face] <= level
      ensures k >= |rest| ==> lv'[newBorder[k].face] == level
    {
      if k < |rest| {
        assert newBorder[k] == rest[k] == border[k + 1];
        assert newBorder[k].face !in order;
      }
    }
    forall f | 0 <= f < |lv'|
      ensures lv'[f] <= level
    {
    }
  }

  /** ... and keeps the border sound and complete. */
  lemma FillAcrossBorder(c: Cdt, lv: seq<int>, lv': seq<int>, edge: Edge, rest: seq<Edge>,
                         order: seq<nat>, newBorder: seq<Edge>)
    requires Valid(c) && |lv| == |lv'| == |c.faces|
    requires BorderSound(c, lv, [edge] + rest) && BorderComplete(c, lv, [edge] + rest)
    requires edge.face < |lv| && edge.index < 3 && lv[edge.face] >= 0
    requires SameAcrossUnconstrained(c, lv')
    requires LabelsTracked(c, lv, lv', Nbr(c, edge.face, edge.index), lv[edge.face] + 1, order)
    requires order != [] && order[0] == Nbr(c, edge.face, edge.index)
    requires BorderTracked(c, lv', order, rest, newBorder)
    ensures BorderSound(c, lv', newBorder) && BorderComplete(c, lv', newBorder)
  {
    forall k | 0 <= k < |newBorder|
      ensures newBorder[k].face < |lv'| && newBorder[k].index < 3 &&
              IsConstrained(c, newBorder[k].face, newBorder[k].index) && lv'[newBorder[k].face] >= 0
    {
      if k < |rest| {
        assert newBorder[k] == rest[k] == ([edge] + rest)[k + 1];
        assert newBorder[k].face !in order;
      }
    }
    forall f, i | 0 <= f < |lv'| && 0 <= i < 3 && lv'[f] != Unlabelled && lv'[Nbr(c, f, i)] == Unlabelled
      ensures Edge(f, i) in newBorder
    {
      if f !in order {
        assert Edge(f, i) in [edge] + rest;
        assert Edge(f, i) != edge;
        assert Edge(f, i) in newBorder[..|rest|];
      }
    }
  }

  lemma FillAcrossKeeps(c: Cdt, lv: seq<int>, lv': seq<int>, edge: Edge, rest: seq<Edge>,
                        order: seq<nat>, newBorder: seq<Edge>)
    requires Valid(c) && |lv| == |lv'| == |c.faces|
    requires DomainsInvariant(c, lv, [edge] + rest)
    requires edge.face < |lv| && edge.index < 3
    requires lv[Nbr(c, edge.face, edge.index)] == Unlabelled
    requires SameAcrossUnconstrained(c, lv')
    requires LabelsTracked(c, lv, lv', Nbr(c, edge.face, edge.index), lv[edge.face] + 1, order)
    requires order != [] && order[0] == Nbr(c, edge.face, edge.index)
    requires BorderTracked(c, lv', order, rest, newBorder)
    ensures DomainsInvariant(c, lv', newBorder)
  {
    assert ([edge] + rest)[0] == edge;
    assert c.infiniteFace !in order;
    FillAcrossJustified(c, lv, lv', edge, order);
    FillAcrossBorder(c, lv, lv', edge, rest, order, newBorder);
    FillAcrossClose(c, lv, lv', edge, rest, order);
    FillAcrossFifo(c, lv, lv', edge, rest, order, newBorder);
  }

  /** mark_domains(triangulation): resets every face to Unlabelled, floods the
      outside from the infinite face with level 0, then drains the border list
      in FIFO order, flooding the unlabelled far side of each border edge with
      the near side's level plus one. */
  method MarkDomains(c: Cdt, level: array<int>)
    requires Valid(c) && level.Length == |c.faces|
    modifies level
    ensures level[c.infiniteFace] == 0
    ensures forall f :: 0 <= f < level.Length ==> level[f] >= Unlabelled
    ensures NeighboursLabelled(c, level[..])
    ensures SameAcrossUnconstrained(c, level[..])
    ensures AdjacentClose(c, level[..])
    ensures Justified(c, level[..])
    // so each level is the fewest constraints crossed from the infinite face,
    // and the faces left Unlabelled are those no path reaches
    ensures forall f :: 0 <= f < level.Length && level[f] != Unlabelled ==> FewestCrossings(c, f, level[f])
    ensures forall f :: 0 <= f < level.Length ==> (level[f] == Unlabelled <==> forall path :: !WalkTo(c, path, f))
  {
    ResetLevels(level);
    ghost var lv0 := level[..];
    var border: seq<Edge>;
    ghost var order: seq<nat>;
    border, order := MarkDomain(c, level, c.infiniteFace, 0, []);
    FirstFillEstablishes(c, lv0, level[..], order, border);
    while border != []
      invariant DomainsInvariant(c, level[..], border)
      decreases CountUnlabelled(level[..]), |border|
    {
      ghost var lv := level[..];
      ghost var before := border;
      border := PopBorderEdge(c, level, border);
      assert CountUnlabelled(level[..]) < CountUnlabelled(lv) ||
             (level[..] == lv && |border| < |before|);
    }
    forall f | 0 <= f < level.Length
      ensures level[f] != Unlabelled ==> FewestCrossings(c, f, level[f])
      ensures level[f] == Unlabelled <==> forall path :: !WalkTo(c, path, f)
    {
      LevelIsFewestCrossings(c, level[..], f);
    }
  }

  /** The first loop of mark_domains: every face back to Unlabelled. */
  method ResetLevels(level: array<int>)
    modifies level
    ensures forall g :: 0 <= g < level.Length ==> level[g] == Unlabelled
  {
    for f := 0 to level.Length
      invariant forall g :: 0 <= g < f ==> level[g] == Unlabelled
    {
      level[f] := Unlabelled;
    }
  }

  /** The effect of one round of the border loop. When the face across the
      front edge is already labelled, the edge is dropped and nothing else
      changes. Otherwise that face's free region, and only faces unlabelled
      before, gets the near face's level + 1; no labelled face changes; and the
      border keeps the rest of its edges in front of the ones it gains. */
  ghost predicate PoppedFront(c: Cdt, lv: seq<int>, lv': seq<int>, border: seq<Edge>, border': seq<Edge>)
    requires Shaped(c) && |lv| == |lv'| == |c.faces|
    requires border != [] && border[0].face < |c.faces| && border[0].index < 3
  {
    var far := Nbr(c, border[0].face, border[0].index);
    && (lv[far] != Unlabelled ==> lv' == lv && border' == border[1..])
    && (lv[far] == Unlabelled ==>
          && lv'[far] != Unlabelled
          && (forall f :: 0 <= f < |lv| && lv[f] != Unlabelled ==> lv'[f] == lv[f])
          && (forall f :: 0 <= f < |lv| && lv[f] == Unlabelled && lv'[f] != Unlabelled ==>
                lv'[f] == lv[border[0].face] + 1 && FreeReach(c, far, f))
          && |border| - 1 <= |border'| && border'[..|border| - 1] == border[1..])
  }

  /** One round of the border loop: pops the front edge and, when the face
      across it is still unlabelled, floods that face's region with the near
      side's level plus one. */
  method PopBorderEdge(c: Cdt, level: array<int>, border: seq<Edge>) returns (border': seq<Edge>)
    requires Valid(c) && level.Length == |c.faces|
    requires border != [] && DomainsInvariant(c, level[..], border)
    modifies level
    ensures border[0].face < |c.faces| && border[0].index < 3
    ensures PoppedFront(c, old(level[..]), level[..], border, border')
    ensures DomainsInvariant(c, level[..], border')
    ensures CountUnlabelled(level[..]) < CountUnlabelled(old(level[..])) ||
            (level[..] == old(level[..]) && |border'| < |border|)
  {
    BorderFront(c, level[..], border);
    hide DomainsInvariant, LabelsTracked, BorderTracked, SameAcrossUnconstrained, CountUnlabelled, PoppedFront;
    var edge := border[0];
    var nbr := c.faces[edge.face].neighbor[edge.index];
    ghost var lv := level[..];
    if level[nbr] == Unlabelled {
      ghost var order: seq<nat>;
      border', order := MarkDomain(c, level, nbr, level[edge.face] + 1, border[1..]);
      FillStep(c, lv, level[..], border, order, border');
    } else {
      border' := border[1..];
      DropStep(c, lv, border);
    }
  }

  /** A fill across the front edge keeps the invariant, has the effect
      PoppedFront states and labels at least one more face. */
  lemma FillStep(c: Cdt, lv: seq<int>, lv': seq<int>, border: seq<Edge>, order: seq<nat>, border': seq<Edge>)
    requires Valid(c) && |lv| == |lv'| == |c.faces|
    requires border != [] && DomainsInvariant(c, lv, border)
    requires border[0].face < |c.faces| && border[0].index < 3
    requires lv[Nbr(c, border[0].face, border[0].index)] == Unlabelled
    requires SameAcrossUnconstrained(c, lv')
    requires LabelsTracked(c, lv, lv', Nbr(c, border[0].face, border[0].index), lv[border[0].face] + 1, order)
    requires lv[Nbr(c, border[0].face, border[0].index)] == Unlabelled ==>
               order != [] && order[0] == Nbr(c, border[0].face, border[0].index)
    requires BorderTracked(c, lv', order, border[1..], border')
    ensures DomainsInvariant(c, lv', border')
    ensures PoppedFront(c, lv, lv', border, border')
    ensures CountUnlabelled(lv') < CountUnlabelled(lv)
  {
    var edge, rest := border[0], border[1..];
    assert border == [edge] + rest;
    FillAcrossKeeps(c, lv, lv', edge, rest, order, border');
    LabellingShrinksCount(lv, lv', Nbr(c, edge.face, edge.index));
    FillOutcome(c, lv, lv', border, order, border');
  }

  /** Dropping a front edge whose far face is labelled keeps the invariant. */
  lemma DropStep(c: Cdt, lv: seq<int>, border: seq<Edge>)
    requires Shaped(c) && |lv| == |c.faces|
    requires border != [] && DomainsInvariant(c, lv, border)
    requires border[0].face < |c.faces| && border[0].index < 3
    requires lv[Nbr(c, border[0].face, border[0].index)] != Unlabelled
    ensures DomainsInvariant(c, lv, border[1..])
    ensures PoppedFront(c, lv, lv, border, border[1..])
  {
    var edge, rest := border[0], border[1..];
    assert border == [edge] + rest;
    PopLabelledKeeps(c, lv, edge, rest);
    DroppedOutcome(c, lv, border);
  }

  /** A front edge whose far face is labelled is just dropped. */
  lemma DroppedOutcome(c: Cdt, lv: seq<int>, border: seq<Edge>)
    requires Shaped(c) && |lv| == |c.faces|
    requires border != [] && border[0].face < |c.faces| && border[0].index < 3
    requires lv[Nbr(c, border[0].face, border[0].index)] != Unlabelled
    ensures PoppedFront(c, lv, lv, border, border[1..])
  {
  }

  /** The front edge of a border is an edge of a labelled face, and the
      levels agree across unconstrained edges. */
  lemma BorderFront(c: Cdt, lv: seq<int>, border: seq<Edge>)
    requires Shaped(c) && |lv| == |c.faces| && border != [] && DomainsInvariant(c, lv, border)
    ensures border[0].face < |lv| && border[0].index < 3 && lv[border[0].face] >= 0
    ensures SameAcrossUnconstrained(c, lv)
  {
  }

  /** A fill across the front edge, from its unlabelled far face with the near
      face's level + 1, has the effect PoppedFront states. */
  lemma FillOutcome(c: Cdt, lv: seq<int>, lv': seq<int>, border: seq<Edge>, order: seq<nat>, border': seq<Edge>)
    requires Shaped(c) && |lv| == |lv'| == |c.faces|
    requires border != [] && border[0].face < |c.faces| && border[0].index < 3
    requires lv[Nbr(c, border[0].face, border[0].index)] == Unlabelled
    requires LabelsTracked(c, lv, lv', Nbr(c, border[0].face, border[0].index), lv[border[0].face] + 1, order)
    requires order != [] && order[0] == Nbr(c, border[0].face, border[0].index)
    requires BorderTracked(c, lv', order, border[1..], border')
    ensures PoppedFront(c, lv, lv', border, border')
  {
    TrackedReach(c, lv, lv', Nbr(c, border[0].face, border[0].index), lv[border[0].face] + 1, order);
  }

  /** b is the neighbour of a across one of its edges; when `free`, across an
      unconstrained one. */
  ghost predicate Step(c: Cdt, a: nat, b: nat, free: bool)
    requires Shaped(c) && a < |c.faces|
  {
    exists i :: 0 <= i < 3 && (free ==> !IsConstrained(c, a, i)) && Nbr(c, a, i) == b
  }

  /** A path of faces, each a Step from the previous one. */
  ghost predicate IsPath(c: Cdt, path: seq<nat>, free: bool)
    requires Shaped(c)
  {
    && (forall k :: 0 <= k < |path| ==> path[k] < |c.faces|)
    && (forall k :: 0 < k < |path| ==> Step(c, path[k - 1], path[k], free))
  }

  lemma {:induction false} LevelAlongFreePathAt(c: Cdt, lv: seq<int>, path: seq<nat>, k: nat)
    requires Shaped(c) && |lv| == |c.faces| && SameAcrossUnconstrained(c, lv)
    requires IsPath(c, path, true) && k < |path| && lv[path[0]] != Unlabelled
    ensures lv[path[k]] == lv[path[0]]
  {
    if k > 0 {
      LevelAlongFreePathAt(c, lv, path, k - 1);
      assert Step(c, path[k - 1], path[k], true);
      var i :| 0 <= i < 3 && !IsConstrained(c, path[k - 1], i) && Nbr(c, path[k - 1], i) == path[k];
    }
  }

  /** Once the marking is done, a region that no constraint crosses has a
      single level: levels agree all along an unconstrained path. */
  lemma LevelConstantAlongFreePath(c: Cdt, lv: seq<int>, path: seq<nat>)
    requires Shaped(c) && |lv| == |c.faces| && SameAcrossUnconstrained(c, lv)
    requires IsPath(c, path, true) && path != [] && lv[path[0]] != Unlabelled
    ensures forall k :: 0 <= k < |path| ==> lv[path[k]] == lv[path[0]]
  {
    forall k | 0 <= k < |path|
      ensures lv[path[k]] == lv[path[0]]
    {
      LevelAlongFreePathAt(c, lv, path, k);
    }
  }

  lemma {:induction false} LabelledAlongPathAt(c: Cdt, lv: seq<int>, path: seq<nat>, k: nat)
    requires Shaped(c) && |lv| == |c.faces| && NeighboursLabelled(c, lv)
    requires IsPath(c, path, false) && k < |path| && lv[path[0]] != Unlabelled
    ensures lv[path[k]] != Unlabelled
  {
    if k > 0 {
      LabelledAlongPathAt(c, lv, path, k - 1);
      assert Step(c, path[k - 1], path[k], false);
      var i :| 0 <= i < 3 && Nbr(c, path[k - 1], i) == path[k];
    }
  }

  /** Once the marking is done, every face reachable from a labelled face
      (the infinite face, say) is labelled: a triangulation whose faces are all
      connected to the infinite face is labelled everywhere. */
  lemma LabelledAlongPath(c: Cdt, lv: seq<int>, path: seq<nat>)
    requires Shaped(c) && |lv| == |c.faces| && NeighboursLabelled(c, lv)
    requires IsPath(c, path, false) && path != [] && lv[path[0]] != Unlabelled
    ensures forall k :: 0 <= k < |path| ==> lv[path[k]] != Unlabelled
  {
    forall k | 0 <= k < |path|
      ensures lv[path[k]] != Unlabelled
    {
      LabelledAlongPathAt(c, lv, path, k);
    }
  }

  /** Whether the step from a to b must cross a constraint: no unconstrained
      edge of a leads to b. */
  ghost function StepCost(c: Cdt, a: nat, b: nat): nat
    requires Shaped(c)
  {
    if a < |c.faces| && Step(c, a, b, true) then 0 else 1
  }

  /** The number of constraints a path of faces crosses. */
  ghost function Crossings(c: Cdt, path: seq<nat>): nat
    requires Shaped(c)
  {
    if |path| <= 1 then 0
    else Crossings(c, path[..|path| - 1]) + StepCost(c, path[|path| - 2], path[|path| - 1])
  }

  /** A path of faces from the infinite face to f. */
  ghost predicate WalkTo(c: Cdt, path: seq<nat>, f: nat)
    requires Shaped(c)
  {
    IsPath(c, path, false) && |path| > 0 && path[0] == c.infiniteFace && path[|path| - 1] == f
  }

  /** n is the fewest constraints any path from the infinite face to f crosses. */
  ghost predicate FewestCrossings(c: Cdt, f: nat, n: nat)
    requires Shaped(c)
  {
    && (exists path :: WalkTo(c, path, f) && Crossings(c, path) == n)
    && (forall path :: WalkTo(c, path, f) ==> n <= Crossings(c, path))
  }

  lemma PrefixIsPath(c: Cdt, path: seq<nat>, n: nat, free: bool)
    requires Shaped(c) && IsPath(c, path, free) && n <= |path|
    ensures IsPath(c, path[..n], free)
  {
    var p := path[..n];
    forall k | 0 < k < |p|
      ensures Step(c, p[k - 1], p[k], free)
    {
      assert p[k - 1] == path[k - 1] && p[k] == path[k];
    }
  }

  /** Two paths joined by a step from the end of one to the start of the other. */
  lemma JoinPaths(c: Cdt, p: seq<nat>, q: seq<nat>)
    requires Shaped(c) && IsPath(c, p, false) && IsPath(c, q, false) && |p| > 0 && |q| > 0
    requires Step(c, p[|p| - 1], q[0], false)
    ensures IsPath(c, p + q, false)
  {
    var path := p + q;
    forall k | 0 < k < |path|
      ensures Step(c, path[k - 1], path[k], false)
    {
      if k < |p| {
        assert path[k - 1] == p[k - 1] && path[k] == p[k];
      } else if k == |p| {
        assert path[k - 1] == p[|p| - 1] && path[k] == q[0];
      } else {
        assert path[k - 1] == q[k - 1 - |p|] && path[k] == q[k - |p|];
      }
    }
  }

  lemma {:induction false} CrossingsAppend(c: Cdt, p: seq<nat>, q: seq<nat>)
    requires Shaped(c) && |p| > 0 && |q| > 0
    ensures Crossings(c, p + q) == Crossings(c, p) + StepCost(c, p[|p| - 1], q[0]) + Crossings(c, q)
    decreases |q|
  {
    var pq := p + q;
    if |q| == 1 {
      assert pq[..|pq| - 1] == p;
    } else {
      var q' := q[..|q| - 1];
      CrossingsAppend(c, p, q');
      assert pq[..|pq| - 1] == p + q';
      assert q'[0] == q[0];
    }
  }

  lemma {:induction false} FreePathCrossesNothing(c: Cdt, path: seq<nat>)
    requires Shaped(c) && IsPath(c, path, true)
    ensures IsPath(c, path, false) && Crossings(c, path) == 0
  {
    if |path| > 1 {
      var p := path[..|path| - 1];
      PrefixIsPath(c, path, |path| - 1, true);
      FreePathCrossesNothing(c, p);
      var n := |path| - 1;
      assert Step(c, path[n - 1], path[n], true);
      forall k | 0 < k < |path|
        ensures Step(c, path[k - 1], path[k], false)
      {
        assert Step(c, path[k - 1], path[k], true);
        var i :| 0 <= i < 3 && !IsConstrained(c, path[k - 1], i) && Nbr(c, path[k - 1], i) == path[k];
      }
    }
  }

  /** Along any path from a labelled face, the level rises by at most the
      number of constraints crossed. */
  lemma {:induction false} LevelAtMostCrossings(c: Cdt, lv: seq<int>, path: seq<nat>)
    requires Shaped(c) && |lv| == |c.faces|
    requires NeighboursLabelled(c, lv) && SameAcrossUnconstrained(c, lv) && AdjacentClose(c, lv)
    requires IsPath(c, path, false) && |path| > 0 && lv[path[0]] != Unlabelled
    ensures lv[path[|path| - 1]] != Unlabelled
    ensures lv[path[|path| - 1]] <= lv[path[0]] + Crossings(c, path)
  {
    if |path| > 1 {
      var n := |path| - 1;
      var p := path[..n];
      PrefixIsPath(c, path, n, false);
      LevelAtMostCrossings(c, lv, p);
      var a, b := path[n - 1], path[n];
      assert p[|p| - 1] == a;
      assert Step(c, a, b, false);
      var i :| 0 <= i < 3 && Nbr(c, a, i) == b;
      if Step(c, a, b, true) {
        var j :| 0 <= j < 3 && !IsConstrained(c, a, j) && Nbr(c, a, j) == b;
      }
    }
  }

  /** A labelled face is reached from the infinite face by a path crossing at
      most as many constraints as its level, built from the chain of origins. */
  lemma {:induction false} WalkWithinLevel(c: Cdt, lv: seq<int>, f: nat) returns (path: seq<nat>)
    requires Shaped(c) && |lv| == |c.faces| && f < |lv| && lv[f] != Unlabelled
    requires LevelsInRange(lv) && Justified(c, lv)
    ensures WalkTo(c, path, f) && Crossings(c, path) <= lv[f]
    decreases lv[f]
  {
    assert HasOrigin(c, lv, f);
    if lv[f] == 0 {
      path :| IsPath(c, path, true) && |path| > 0 && path[0] == c.infiniteFace && path[|path| - 1] == f;
      FreePathCrossesNothing(c, path);
    } else {
      var g, i :| 0 <= g < |lv| && 0 <= i < 3 && IsConstrained(c, g, i) &&
                  lv[g] == lv[f] - 1 && lv[Nbr(c, g, i)] == lv[f] && FreeReach(c, Nbr(c, g, i), f);
      var p := WalkWithinLevel(c, lv, g);
      var q :| IsPath(c, q, true) && |q| > 0 && q[0] == Nbr(c, g, i) && q[|q| - 1] == f;
      path := ExtendWalk(c, p, g, i, q);
    }
  }

  /** A walk to g, continued across edge i of g and then along a free path,
      crosses at most one more constraint. */
  lemma ExtendWalk(c: Cdt, p: seq<nat>, g: nat, i: nat, q: seq<nat>) returns (path: seq<nat>)
    requires Shaped(c) && g < |c.faces| && i < 3 && WalkTo(c, p, g)
    requires IsPath(c, q, true) && |q| > 0 && q[0] == Nbr(c, g, i)
    ensures WalkTo(c, path, q[|q| - 1]) && Crossings(c, path) <= Crossings(c, p) + 1
  {
    FreePathCrossesNothing(c, q);
    CrossingsAppend(c, p, q);
    path := p + q;
    assert Step(c, g, Nbr(c, g, i), false);
    JoinPaths(c, p, q);
  }

  /** After marking, a face's level is the fewest constraints crossed on any
      path to it from the infinite face, and a face no such path reaches stays
      Unlabelled. */
  lemma LevelIsFewestCrossings(c: Cdt, lv: seq<int>, f: nat)
    requires Shaped(c) && |lv| == |c.faces| && f < |lv|
    requires lv[c.infiniteFace] == 0 && LevelsInRange(lv) && NeighboursLabelled(c, lv)
    requires SameAcrossUnconstrained(c, lv) && AdjacentClose(c, lv) && Justified(c, lv)
    ensures lv[f] != Unlabelled ==> FewestCrossings(c, f, lv[f])
    ensures lv[f] == Unlabelled <==> forall path :: !WalkTo(c, path, f)
  {
    forall path | WalkTo(c, path, f)
      ensures lv[f] != Unlabelled && lv[f] <= Crossings(c, path)
    {
      LevelAtMostCrossings(c, lv, path);
    }
    if lv[f] != Unlabelled {
      var path := WalkWithinLevel(c, lv, f);
      assert WalkTo(c, path, f) && Crossings(c, path) == lv[f];
    }
  }

  // ---------------------------------------------------------------------------
  // Result assembly (TV, TF)
  // ---------------------------------------------------------------------------

  /** The k-th finite vertex: CGAL's finite vertex handles skip the infinite one. */
  function FiniteVertex(c: Cdt, k: nat): nat
  {
    if k < c.infiniteVertex then k else k + 1
  }

  /** The position of a finite vertex among the finite vertices: the number
      the vertex_index map gives it. */
  function FiniteRank(c: Cdt, v: nat): nat
    requires v != c.infiniteVertex
  {
    if v < c.infiniteVertex then v else v - 1
  }

  /** Ranks number the finite vertices 0 .. nv-1 without gaps or repeats. */
  lemma FiniteRankIsBijection(c: Cdt)
    requires Shaped(c)
    ensures forall k :: 0 <= k < |c.points| - 1 ==>
              FiniteVertex(c, k) < |c.points| && FiniteVertex(c, k) != c.infiniteVertex &&
              FiniteRank(c, FiniteVertex(c, k)) == k
    ensures forall v :: 0 <= v < |c.points| && v != c.infiniteVertex ==>
              FiniteRank(c, v) < |c.points| - 1 && FiniteVertex(c, FiniteRank(c, v)) == v
  {
  }

  predicate IsFiniteFace(c: Cdt, f: nat)
    requires f < |c.faces|
  {
    c.infiniteVertex !in c.faces[f].vertex
  }

  /** The finite faces below n that are in the domain, in face order. */
  function DomainFaces(c: Cdt, inDomain: seq<bool>, n: nat): seq<nat>
    requires |inDomain| == |c.faces| && n <= |c.faces|
  {
    if n == 0 then []
    else DomainFaces(c, inDomain, n - 1) + (if IsFiniteFace(c, n - 1) && inDomain[n - 1] then [n - 1] else [])
  }

  /** DomainFaces lists, in increasing order, exactly the finite in-domain faces. */
  lemma {:induction false} DomainFacesExactly(c: Cdt, inDomain: seq<bool>, n: nat)
    requires |inDomain| == |c.faces| && n <= |c.faces|
    ensures forall j :: 0 <= j < |DomainFaces(c, inDomain, n)| ==>
              DomainFaces(c, inDomain, n)[j] < n && IsFiniteFace(c, DomainFaces(c, inDomain, n)[j]) &&
              inDomain[DomainFaces(c, inDomain, n)[j]]
    ensures forall f :: 0 <= f < n && IsFiniteFace(c, f) && inDomain[f] ==> f in DomainFaces(c, inDomain, n)
    ensures forall j, k :: 0 <= j < k < |DomainFaces(c, inDomain, n)| ==>
              DomainFaces(c, inDomain, n)[j] < DomainFaces(c, inDomain, n)[k]
  {
    if n > 0 {
      DomainFacesExactly(c, inDomain, n - 1);
      var prev := DomainFaces(c, inDomain, n - 1);
      var added: seq<nat> := if IsFiniteFace(c, n - 1) && inDomain[n - 1] then [n - 1] else [];
      var all := prev + added;
      assert DomainFaces(c, inDomain, n) == all;
      forall j | 0 <= j < |all|
        ensures all[j] < n && IsFiniteFace(c, all[j]) && inDomain[all[j]]
      {
        if j < |prev| {
          assert all[j] == prev[j];
        }
      }
      forall f | 0 <= f < n && IsFiniteFace(c, f) && inDomain[f]
        ensures f in all
      {
        if f < n - 1 {
          assert f in prev;
        } else {
          assert all[|all| - 1] == f;
        }
      }
      forall j, k | 0 <= j < k < |all|
        ensures all[j] < all[k]
      {
        if k < |prev| {
          assert all[j] == prev[j] && all[k] == prev[k];
        } else {
          assert all[j] == prev[j];
        }
      }
    }
  }

  /** The TF row of a finite face: its three vertices' numbers. */
  function FaceRow(c: Cdt, f: nat): seq<int>
    requires Shaped(c) && f < |c.faces| && IsFiniteFace(c, f)
  {
    var v := c.faces[f].vertex;
    [FiniteRank(c, v[0]), FiniteRank(c, v[1]), FiniteRank(c, v[2])]
  }

  /** The TV row of a vertex: its x and y, and z = 0. */
  function VertexRow(p: Point2): seq<real>
  {
    [p.x, p.y, 0.0]
  }

  /** The result matrices for a triangulation and its per-face domain flags. */
  function ResultFaces(c: Cdt, inDomain: seq<bool>): seq<seq<int>>
    requires Shaped(c) && |inDomain| == |c.faces|
  {
    var kept := DomainFaces(c, inDomain, |c.faces|);
    DomainFacesExactly(c, inDomain, |c.faces|);
    seq(|kept|, j requires 0 <= j < |kept| => FaceRow(c, kept[j]))
  }

  function ResultVertices(c: Cdt): seq<seq<real>>
    requires Shaped(c)
  {
    seq(|c.points| - 1, k requires 0 <= k < |c.points| - 1 => VertexRow(c.points[FiniteVertex(c, k)]))
  }

  /** The counting loop: the number of finite faces in the domain. */
  method CountDomainFaces(c: Cdt, inDomain: seq<bool>) returns (count: nat)
    requires |inDomain| == |c.faces|
    ensures count == |DomainFaces(c, inDomain, |c.faces|)|
  {
    count := 0;
    for f := 0 to |c.faces|
      invariant count == |DomainFaces(c, inDomain, f)|
    {
      if c.infiniteVertex !in c.faces[f].vertex && inDomain[f] {
        count := count + 1;
      }
    }
  }

  /** The vertex loop: numbers the finite vertices in iteration order (the
      vertex_index map) and fills their TV rows. */
  method LoadVertices(c: Cdt) returns (rows: seq<seq<real>>, vertexIndex: map<nat, int>)
    requires Shaped(c)
    ensures rows == ResultVertices(c)
    ensures forall v: nat :: v in vertexIndex <==> v < |c.points| && v != c.infiniteVertex
    ensures forall v :: v in vertexIndex ==> vertexIndex[v] == FiniteRank(c, v)
  {
    var nv := |c.points| - 1;
    rows := seq(nv, _ => [0.0, 0.0, 0.0]);
    vertexIndex := map[];
    var i := 0;
    for v := 0 to |c.points|
      invariant i == (if v <= c.infiniteVertex then v else v - 1)
      invariant |rows| == nv
      invariant forall u: nat :: u in vertexIndex <==> u < v && u != c.infiniteVertex
      invariant forall u :: u in vertexIndex ==> vertexIndex[u] == FiniteRank(c, u)
      invariant forall k :: 0 <= k < i ==> rows[k] == VertexRow(c.points[FiniteVertex(c, k)])
    {
      if v != c.infiniteVertex {
        var p := c.points[v];
        vertexIndex := vertexIndex[v := i];
        rows := rows[i := [p.x, p.y, 0.0]];
        i := i + 1;
      }
    }
    assert i == nv;
    assert forall k :: 0 <= k < nv ==> rows[k] == ResultVertices(c)[k];
  }

  /** The face loop: fills one TF row per finite in-domain face, in face
      order, through the vertex_index map. */
  method LoadFaces(c: Cdt, inDomain: seq<bool>, count: nat, vertexIndex: map<nat, int>) returns (rows: seq<seq<int>>)
    requires Shaped(c) && |inDomain| == |c.faces|
    requires count == |DomainFaces(c, inDomain, |c.faces|)|
    requires forall v: nat :: v in vertexIndex <==> v < |c.points| && v != c.infiniteVertex
    requires forall v :: v in vertexIndex ==> vertexIndex[v] == FiniteRank(c, v)
    ensures rows == ResultFaces(c, inDomain)
  {
    rows := seq(count, _ => [0, 0, 0]);
    var j := 0;
    for f := 0 to |c.faces|
      invariant |rows| == count
      invariant j == |DomainFaces(c, inDomain, f)| <= count
      invariant RowsFilled(c, rows, DomainFaces(c, inDomain, f))
    {
      DomainFacesPrefix(c, inDomain, f + 1, |c.faces|);
      var face := c.faces[f];
      if c.infiniteVertex !in face.vertex && inDomain[f] {
        assert FaceShape(c, face);
        var a, b, d := face.vertex[0], face.vertex[1], face.vertex[2];
        var row := [vertexIndex[a], vertexIndex[b], vertexIndex[d]];
        assert row == FaceRow(c, f);
        FillRow(c, rows, DomainFaces(c, inDomain, f), f);
        rows := rows[j := row];
        j := j + 1;
      }
    }
    DomainFacesExactly(c, inDomain, |c.faces|);
    assert forall k :: 0 <= k < count ==> rows[k] == ResultFaces(c, inDomain)[k];
  }

  /** The first |done| rows are the TF rows of the faces in `done`. */
  ghost predicate RowsFilled(c: Cdt, rows: seq<seq<int>>, done: seq<nat>)
    requires Shaped(c)
  {
    && |done| <= |rows|
    && forall k :: 0 <= k < |done| ==>
         done[k] < |c.faces| && IsFiniteFace(c, done[k]) && rows[k] == FaceRow(c, done[k])
  }

  lemma FillRow(c: Cdt, rows: seq<seq<int>>, done: seq<nat>, f: nat)
    requires Shaped(c) && RowsFilled(c, rows, done) && |done| < |rows|
    requires f < |c.faces| && IsFiniteFace(c, f)
    ensures RowsFilled(c, rows[|done| := FaceRow(c, f)], done + [f])
  {
  }

  /** Face lists grow only at the end. */
  lemma {:induction false} DomainFacesPrefix(c: Cdt, inDomain: seq<bool>, m: nat, n: nat)
    requires |inDomain| == |c.faces| && m <= n <= |c.faces|
    ensures |DomainFaces(c, inDomain, m)| <= |DomainFaces(c, inDomain, n)|
    ensures DomainFaces(c, inDomain, n)[..|DomainFaces(c, inDomain, m)|] == DomainFaces(c, inDomain, m)
    decreases n - m
  {
    if m < n {
      DomainFacesPrefix(c, inDomain, m, n - 1);
    }
  }

  /** The assembly shared by pmp_constrained_delaunay_triangulation and
      pmp_refined_delaunay_mesh, given each face's domain flag: TV holds the
      finite vertices, TF the finite in-domain faces. */
  method AssembleResult(c: Cdt, inDomain: seq<bool>) returns (tv: Mat<real>, tf: Mat<int>)
    requires Shaped(c) && |inDomain| == |c.faces|
    ensures tv == Mat(3, ResultVertices(c)) && tf == Mat(3, ResultFaces(c, inDomain))
  {
    var count := CountDomainFaces(c, inDomain);
    var vertexRows, vertexIndex := LoadVertices(c);
    var faceRows := LoadFaces(c, inDomain, count, vertexIndex);
    tv := Mat(3, vertexRows);
    tf := Mat(3, faceRows);
  }

  /** The result is a well-formed mesh: TF has one row per finite in-domain
      face, in face order; every entry numbers a TV row, and that row holds the
      face vertex's x, y and z = 0. */
  lemma ResultIsIndexedMesh(c: Cdt, inDomain: seq<bool>)
    requires Shaped(c) && |inDomain| == |c.faces|
    ensures var faces := ResultFaces(c, inDomain);
            var vertices := ResultVertices(c);
            var kept := DomainFaces(c, inDomain, |c.faces|);
            && |faces| == |kept|
            && (forall f :: 0 <= f < |c.faces| && IsFiniteFace(c, f) && inDomain[f] ==> f in kept)
            && (forall j :: 0 <= j < |faces| ==> kept[j] < |c.faces| && IsFiniteFace(c, kept[j]) && inDomain[kept[j]])
            && (forall j, t :: 0 <= j < |faces| && 0 <= t < 3 ==>
                  0 <= faces[j][t] < |vertices| &&
                  vertices[faces[j][t]] == VertexRow(c.points[c.faces[kept[j]].vertex[t]]))
  {
    var kept := DomainFaces(c, inDomain, |c.faces|);
    DomainFacesExactly(c, inDomain, |c.faces|);
    FiniteRankIsBijection(c);
    forall j, t | 0 <= j < |kept| && 0 <= t < 3
      ensures c.faces[kept[j]].vertex[t] < |c.points| && c.faces[kept[j]].vertex[t] != c.infiniteVertex
    {
      assert FaceShape(c, c.faces[kept[j]]);
    }
  }

  /** pmp_constrained_delaunay_triangulation after CGAL has built (and, for
      the conforming variant, conformed) the triangulation `c`: mark the
      domains, then keep the finite faces of odd level. */
  method ConstrainedResult(c: Cdt) returns (tv: Mat<real>, tf: Mat<int>, ghost level: seq<int>)
    requires Valid(c)
    ensures |level| == |c.faces| && level[c.infiniteFace] == 0 && LevelsInRange(level)
    ensures NeighboursLabelled(c, level) && SameAcrossUnconstrained(c, level) && Justified(c, level)
    // the level of every face reached from the infinite face is the fewest
    // constraints crossed to reach it; the others stay Unlabelled
    ensures forall f :: 0 <= f < |level| && level[f] != Unlabelled ==> FewestCrossings(c, f, level[f])
    ensures forall f :: 0 <= f < |level| ==> (level[f] == Unlabelled <==> forall path :: !WalkTo(c, path, f))
    ensures tv == Mat(3, ResultVertices(c))
    ensures tf == Mat(3, ResultFaces(c, seq(|c.faces|, f requires 0 <= f < |c.faces| => InDomain(level[f]))))
  {
    var levels := new int[|c.faces|];
    MarkDomains(c, levels);
    var lv := levels[..];
    level := lv;
    var inDomain := seq(|c.faces|, f requires 0 <= f < |c.faces| => InDomain(lv[f]));
    tv, tf := AssembleResult(c, inDomain);
  }

  // ---------------------------------------------------------------------------
  // Plain Delaunay triangulation: vertex infos
  // ---------------------------------------------------------------------------

  /** A Delaunay triangulation whose vertices carry an unsigned info: each
      vertex's point and info, and its finite faces (three vertex numbers
      each) in iteration order. */
  datatype InfoTriangulation = InfoTriangulation(vertices: seq<(Point2, nat)>, faces: seq<seq<nat>>)

  ghost predicate InfoShaped(t: InfoTriangulation)
  {
    forall j :: 0 <= j < |t.faces| ==>
      |t.faces[j]| == 3 && forall k :: 0 <= k < 3 ==> t.faces[j][k] < |t.vertices|
  }

  /** The (point, row) pairs handed to CGAL: row i of V becomes the point
      (V[i][0], V[i][1]) with info i. */
  ghost predicate PairsOf(V: Mat<real>, pairs: seq<(Point2, nat)>)
    requires V.WellShaped() && V.cols >= 2
  {
    && |pairs| == |V.rows|
    && forall i :: 0 <= i < |pairs| ==> pairs[i] == (Point2(V.rows[i][0], V.rows[i][1]), i)
  }

  /** Every vertex of the triangulation carries one of the inserted pairs:
      CGAL keeps a pair's info with its point (a repeated point keeps one of
      its pairs). */
  ghost predicate CarriesPairs(t: InfoTriangulation, pairs: seq<(Point2, nat)>)
  {
    forall v :: 0 <= v < |t.vertices| ==> t.vertices[v] in pairs
  }

  /** The loop of pmp_delaunay_triangulation that builds the pairs. */
  method InputPairs(V: Mat<real>) returns (pairs: seq<(Point2, nat)>)
    requires V.WellShaped() && V.cols >= 2
    ensures PairsOf(V, pairs)
  {
    pairs := seq(|V.rows|, _ => (Point2(0.0, 0.0), 0));
    for i := 0 to |V.rows|
      invariant |pairs| == |V.rows|
      invariant forall k :: 0 <= k < i ==> pairs[k] == (Point2(V.rows[k][0], V.rows[k][1]), k)
    {
      var point := Point2(V.rows[i][0], V.rows[i][1]);
      pairs := pairs[i := (point, i)];
    }
  }

  /** The F row of a finite face: the infos of its three vertices. */
  function InfoRow(t: InfoTriangulation, j: nat): seq<int>
    requires InfoShaped(t) && j < |t.faces|
  {
    [t.vertices[t.faces[j][0]].1, t.vertices[t.faces[j][1]].1, t.vertices[t.faces[j][2]].1]
  }

  /** The face loop of pmp_delaunay_triangulation: one F row per finite face. */
  method DelaunayFaces(t: InfoTriangulation) returns (F: Mat<int>)
    requires InfoShaped(t)
    ensures F.cols == 3 && |F.rows| == |t.faces|
    ensures forall j :: 0 <= j < |t.faces| ==> F.rows[j] == InfoRow(t, j)
  {
    var rows := seq(|t.faces|, _ => [0, 0, 0]);
    var j := 0;
    while j < |t.faces|
      invariant j <= |t.faces| && |rows| == |t.faces|
      invariant forall k :: 0 <= k < j ==> rows[k] == InfoRow(t, k)
    {
      var face := t.faces[j];
      rows := rows[j := [t.vertices[face[0]].1, t.vertices[face[1]].1, t.vertices[face[2]].1]];
      j := j + 1;
    }
    F := Mat(3, rows);
  }

  /** Every entry of F is a row of V, and that row holds the face vertex's
      coordinates: the info round-trips to the input point. */
  lemma DelaunayFacesIndexInput(V: Mat<real>, pairs: seq<(Point2, nat)>, t: InfoTriangulation)
    requires V.WellShaped() && V.cols >= 2 && PairsOf(V, pairs)
    requires InfoShaped(t) && CarriesPairs(t, pairs)
    ensures forall j, k :: 0 <= j < |t.faces| && 0 <= k < 3 ==>
              var row := InfoRow(t, j)[k];
              var point := t.vertices[t.faces[j][k]].0;
              0 <= row < |V.rows| && V.rows[row][0] == point.x && V.rows[row][1] == point.y
  {
    forall j, k | 0 <= j < |t.faces| && 0 <= k < 3
      ensures var row := InfoRow(t, j)[k];
              var point := t.vertices[t.faces[j][k]].0;
              0 <= row < |V.rows| && V.rows[row][0] == point.x && V.rows[row][1] == point.y
    {
      var pair := t.vertices[t.faces[j][k]];
      assert pair in pairs;
      var i :| 0 <= i < |pairs| && pairs[i] == pair;
    }
  }

  // ---------------------------------------------------------------------------
  // Refined mesh: seeds and size criterion
  // ---------------------------------------------------------------------------

  function Sum(xs: seq<real>): real
  {
    if xs == [] then 0.0 else Sum(xs[..|xs| - 1]) + xs[|xs| - 1]
  }

  /** Column k of a matrix (Eigen's block(0, k, rows, 1)). */
  function Column(H: Mat<real>, k: nat): seq<real>
    requires H.WellShaped() && k < H.cols
  {
    seq(|H.rows|, i requires 0 <= i < |H.rows| => H.rows[i][k])
  }

  /** The seed of a hole: the mean of its x and of its y. A hole with no
      points divides 0 by 0 in the source; here it has no seed. */
  function HoleSeed(H: Mat<real>): Option<Point2>
    requires H.WellShaped() && H.cols >= 2
  {
    if |H.rows| == 0 then None
    else
      var n := |H.rows| as real;
      Some(Point2(Sum(Column(H, 0)) / n, Sum(Column(H, 1)) / n))
  }

  lemma {:induction false} SumBounds(xs: seq<real>, lo: real, hi: real)
    requires forall i :: 0 <= i < |xs| ==> lo <= xs[i] <= hi
    ensures |xs| as real * lo <= Sum(xs) <= |xs| as real * hi
  {
    if xs != [] {
      SumBounds(xs[..|xs| - 1], lo, hi);
    }
  }

  /** The mean of values within [lo, hi] is within [lo, hi]. */
  lemma MeanWithin(xs: seq<real>, lo: real, hi: real)
    requires xs != [] && forall i :: 0 <= i < |xs| ==> lo <= xs[i] <= hi
    ensures lo <= Sum(xs) / |xs| as real <= hi
  {
    SumBounds(xs, lo, hi);
  }

  /** A hole's seed lies in the hole's bounding box; a hole whose points all
      coincide is seeded at that point. */
  lemma HoleSeedInBoundingBox(H: Mat<real>, minX: real, maxX: real, minY: real, maxY: real)
    requires H.WellShaped() && H.cols >= 2 && H.rows != []
    requires forall i :: 0 <= i < |H.rows| ==> minX <= H.rows[i][0] <= maxX && minY <= H.rows[i][1] <= maxY
    ensures HoleSeed(H).Some?
    ensures minX <= HoleSeed(H).value.x <= maxX && minY <= HoleSeed(H).value.y <= maxY
  {
    MeanWithin(Column(H, 0), minX, maxX);
    MeanWithin(Column(H, 1), minY, maxY);
  }

  /** The seeds loop of pmp_refined_delaunay_mesh: one seed per hole, in order. */
  method RefineSeeds(holes: seq<Mat<real>>) returns (seeds: seq<Option<Point2>>)
    requires forall h :: 0 <= h < |holes| ==> holes[h].WellShaped() && holes[h].cols >= 2
    ensures |seeds| == |holes|
    ensures forall h :: 0 <= h < |holes| ==> seeds[h] == HoleSeed(holes[h])
  {
    seeds := [];
    for h := 0 to |holes|
      invariant |seeds| == h
      invariant forall k :: 0 <= k < h ==> seeds[k] == HoleSeed(holes[k])
    {
      var H := holes[h];
      var seed := HoleSeed(H);
      seeds := seeds + [seed];
    }
  }

  /** CGAL's Delaunay_mesh_size_criteria_2(aspect_bound, size_bound): its
      default constructor is (0.125, 0), and a size bound of 0 bounds nothing. */
  datatype Criteria = Criteria(aspectBound: real, sizeBound: real)

  const DefaultCriteria := Criteria(0.125, 0.0)

  /** The criteria of pmp_refined_delaunay_mesh: a size bound only for a
      positive maxlength, and then no aspect bound at all; minangle is never
      read. */
  function RefineCriteria(minangle: real, maxlength: real): (r: Criteria)
    ensures r.sizeBound > 0.0 <==> maxlength > 0.0
    ensures maxlength > 0.0 ==> r.sizeBound == maxlength && r.aspectBound == 0.0
    ensures maxlength <= 0.0 ==> r == DefaultCriteria
  {
    if maxlength > 0.0 then Criteria(0.0, maxlength) else DefaultCriteria
  }

  /** The requested minimum angle has no effect on the criteria. */
  lemma MinAngleIgnored(a: real, b: real, maxlength: real)
    ensures RefineCriteria(a, maxlength) == RefineCriteria(b, maxlength)
  {
  }
}
