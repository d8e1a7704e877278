/**
 * Intersection of a circle with the boundary polyline of a soil layer, as
 * `Layer::circle_intersections` computes it: every edge between consecutive
 * points is intersected as a segment, and the results are appended edge by
 * edge.
 */
module LayerCircle {
  import opened Shapes
  import opened PointLists
  import LineCircle

  /** The edge from point i-1 to point i of a polyline. */
  function Edge(pts: seq<Point>, i: int): Line
    requires 1 <= i < |pts|
  {
    Line(pts[i - 1], pts[i])
  }

  /** Every edge of the polyline can be intersected (see `LineCircle.WellPosed`). */
  predicate WellPosedPolyline(pts: seq<Point>)
  {
    forall i :: 1 <= i < |pts| ==> LineCircle.WellPosed(Edge(pts, i))
  }

  /**
   * What the loop body asks of each edge: its intersections with the circle
   * (mx, my, r) in segment mode. An edge that is not well posed, which a
   * well-posed polyline does not have, yields nothing.
   */
  function SegmentMode(mx: real, my: real, r: real, sqrt: real -> real): Line -> seq<Point>
  {
    l => if LineCircle.WellPosed(l) then LineCircle.Intersections(l, mx, my, r, true, sqrt) else []
  }

  /** The result lists of the edges 1 .. |pts|-1 under `seg`, one list per edge, in edge order. */
  function EdgeResults(pts: seq<Point>, seg: Line -> seq<Point>): (ss: seq<seq<Point>>)
    ensures |ss| == if pts == [] then 0 else |pts| - 1
    ensures forall j :: 0 <= j < |ss| ==> ss[j] == seg(Edge(pts, j + 1))
  {
    if |pts| < 2 then [] else seq(|pts| - 1, j requires 0 <= j < |pts| - 1 => seg(Edge(pts, j + 1)))
  }

  /** What `Layer::circle_intersections` returns: the intersections of all edges, in edge order. */
  function LayerIntersections(pts: seq<Point>, mx: real, my: real, r: real, sqrt: real -> real): seq<Point>
  {
    Concat(EdgeResults(pts, SegmentMode(mx, my, r, sqrt)))
  }

  /**
   * `Layer::circle_intersections`: for i in 1 .. |points| the edge from
   * point i-1 to point i is intersected in segment mode and each of its
   * points is pushed onto the result.
   */
  method CircleIntersections(layer: Layer, mx: real, my: real, r: real, sqrt: real -> real)
    returns (intersections: seq<Point>)
    requires WellPosedPolyline(layer.points)
    ensures intersections == LayerIntersections(layer.points, mx, my, r, sqrt)
  {
    var pts := layer.points;
    ghost var results := EdgeResults(pts, SegmentMode(mx, my, r, sqrt));
    intersections := [];
    var i := 1;
    while i < |pts|
      invariant 1 <= i <= |pts| || (i == 1 && pts == [])
      invariant intersections == Concat(results[..i - 1])
    {
      var line := Line(Point(pts[i - 1].x, pts[i - 1].y), Point(pts[i].x, pts[i].y));
      assert line == Edge(pts, i);
      var found := LineCircle.CircleIntersections(line, mx, my, r, true, sqrt);
      assert found == results[i - 1];
      intersections := PushAll(intersections, found);
      ConcatPrefixStep(results, i);
      i := i + 1;
    }
    assert results[..i - 1] == results;
  }

  /** The inner loop: pushes the points of `found` one by one onto `acc`. */
  method PushAll(acc: seq<Point>, found: seq<Point>) returns (res: seq<Point>)
    ensures res == acc + found
  {
    res := acc;
    var j := 0;
    while j < |found|
      invariant 0 <= j <= |found|
      invariant res == acc + found[..j]
    {
      res := res + [found[j]];
      j := j + 1;
    }
    assert found[..j] == found;
  }

  // ---------------------------------------------------------------------------
  // Properties of the concatenation over the edges, for any per-edge results

  /** A point is among the edges' results exactly when one edge yields it. */
  lemma EdgeMembers(pts: seq<Point>, seg: Line -> seq<Point>, p: Point)
    ensures p in Concat(EdgeResults(pts, seg)) <==> exists i :: 1 <= i < |pts| && p in seg(Edge(pts, i))
  {
    var ss := EdgeResults(pts, seg);
    ConcatMembers(ss, p);
    if exists j :: 0 <= j < |ss| && p in ss[j] {
      var j :| 0 <= j < |ss| && p in ss[j];
      assert 1 <= j + 1 < |pts| && p in seg(Edge(pts, j + 1));
    }
    if exists i :: 1 <= i < |pts| && p in seg(Edge(pts, i)) {
      var i :| 1 <= i < |pts| && p in seg(Edge(pts, i));
      assert 0 <= i - 1 < |ss| && p in ss[i - 1];
    }
  }

  /** The edges of pts[k..n] are the edges k+1 .. n-1 of pts. */
  lemma EdgeResultsSlice(pts: seq<Point>, k: nat, n: nat, seg: Line -> seq<Point>)
    requires k < n <= |pts|
    ensures EdgeResults(pts[k..n], seg) == EdgeResults(pts, seg)[k..n - 1]
  {
    var sub := pts[k..n];
    forall j | 0 <= j < n - 1 - k
      ensures EdgeResults(sub, seg)[j] == EdgeResults(pts, seg)[k + j]
    {
      assert Edge(sub, j + 1) == Edge(pts, k + j + 1);
    }
  }

  /** Splitting the polyline at point k splits the concatenation at edge k. */
  lemma EdgesSplit(pts: seq<Point>, k: nat, seg: Line -> seq<Point>)
    requires k < |pts|
    ensures Concat(EdgeResults(pts, seg)) == Concat(EdgeResults(pts[..k + 1], seg)) + Concat(EdgeResults(pts[k..], seg))
  {
    var whole := EdgeResults(pts, seg);
    EdgeResultsSlice(pts, 0, k + 1, seg);
    EdgeResultsSlice(pts, k, |pts|, seg);
    assert pts[0..k + 1] == pts[..k + 1];
    assert pts[k..|pts|] == pts[k..];
    assert whole == whole[0..k] + whole[k..|pts| - 1];
    ConcatAppend(whole[0..k], whole[k..|pts| - 1]);
  }

  // ---------------------------------------------------------------------------
  // Properties of the layer's intersections

  /** A polyline with fewer than two points has no edge, hence no intersection. */
  lemma ShortLayerEmpty(pts: seq<Point>, mx: real, my: real, r: real, sqrt: real -> real)
    requires |pts| < 2
    ensures WellPosedPolyline(pts)
    ensures LayerIntersections(pts, mx, my, r, sqrt) == []
  {
  }

  /** Each edge contributes at most two points: a layer of n points yields at most 2(n-1). */
  lemma LayerLength(pts: seq<Point>, mx: real, my: real, r: real, sqrt: real -> real)
    ensures |LayerIntersections(pts, mx, my, r, sqrt)| <= if pts == [] then 0 else 2 * (|pts| - 1)
  {
    var ss := EdgeResults(pts, SegmentMode(mx, my, r, sqrt));
    forall j | 0 <= j < |ss|
      ensures |ss[j]| <= 2
    {
      if LineCircle.WellPosed(Edge(pts, j + 1)) {
        LineCircle.IntersectionsSorted(Edge(pts, j + 1), mx, my, r, true, sqrt);
      }
    }
    ConcatLength(ss);
  }

  /**
   * The layer's result holds exactly the points that the segment-mode
   * intersection of some edge yields.
   */
  lemma LayerMembers(pts: seq<Point>, mx: real, my: real, r: real, sqrt: real -> real, p: Point)
    requires WellPosedPolyline(pts)
    ensures p in LayerIntersections(pts, mx, my, r, sqrt) <==>
            exists i :: 1 <= i < |pts| && p in LineCircle.Intersections(Edge(pts, i), mx, my, r, true, sqrt)
  {
    var seg := SegmentMode(mx, my, r, sqrt);
    EdgeMembers(pts, seg, p);
    if exists i :: 1 <= i < |pts| && p in seg(Edge(pts, i)) {
      var i :| 1 <= i < |pts| && p in seg(Edge(pts, i));
      assert p in LineCircle.Intersections(Edge(pts, i), mx, my, r, true, sqrt);
    }
    if exists i :: 1 <= i < |pts| && p in LineCircle.Intersections(Edge(pts, i), mx, my, r, true, sqrt) {
      var i :| 1 <= i < |pts| && p in LineCircle.Intersections(Edge(pts, i), mx, my, r, true, sqrt);
      assert p in seg(Edge(pts, i));
    }
  }

  /**
   * Over exact reals every point of the layer's result lies on the circle,
   * on the line of some edge, and passes that edge's containment test.
   */
  lemma LayerPointsOnCircle(pts: seq<Point>, mx: real, my: real, r: real, sqrt: real -> real, p: Point)
    requires WellPosedPolyline(pts) && IsSquareRoot(sqrt)
    requires p in LayerIntersections(pts, mx, my, r, sqrt)
    ensures LineCircle.OnCircle(p, mx, my, r)
    ensures exists i :: 1 <= i < |pts| && LineCircle.OnLine(p, Edge(pts, i)) &&
                        LineCircle.OnSegment(p, Edge(pts, i), sqrt)
  {
    LayerMembers(pts, mx, my, r, sqrt, p);
    var i :| 1 <= i < |pts| && p in LineCircle.Intersections(Edge(pts, i), mx, my, r, true, sqrt);
    var e := Edge(pts, i);
    LineCircle.IntersectionsOnLineAndCircle(e, mx, my, r, true, sqrt);
    LineCircle.SegmentIsFilter(e, mx, my, r, sqrt);
    assert LineCircle.KeepOnSegment(e, sqrt)(p);
  }

  /**
   * The converse: a point on the circle, on the line of some edge and within
   * that edge is in the layer's result.
   */
  lemma LayerPointsComplete(pts: seq<Point>, mx: real, my: real, r: real, sqrt: real -> real, p: Point, i: int)
    requires WellPosedPolyline(pts) && IsSquareRoot(sqrt) && 1 <= i < |pts|
    requires LineCircle.OnLine(p, Edge(pts, i)) && LineCircle.OnCircle(p, mx, my, r)
    requires LineCircle.OnSegment(p, Edge(pts, i), sqrt)
    ensures p in LayerIntersections(pts, mx, my, r, sqrt)
  {
    LineCircle.IntersectionsComplete(Edge(pts, i), mx, my, r, sqrt, p);
    LayerMembers(pts, mx, my, r, sqrt, p);
  }

  /** Every point of the closed segment of edge i that lies on the circle is returned. */
  lemma LayerSegmentPointsComplete(pts: seq<Point>, mx: real, my: real, r: real, sqrt: real -> real, i: int, t: real)
    requires WellPosedPolyline(pts) && IsSquareRoot(sqrt) && 1 <= i < |pts|
    requires 0.0 <= t <= 1.0
    requires LineCircle.OnCircle(LineCircle.PointAt(Edge(pts, i), t), mx, my, r)
    ensures LineCircle.PointAt(Edge(pts, i), t) in LayerIntersections(pts, mx, my, r, sqrt)
  {
    LineCircle.SegmentPointsOnSegment(Edge(pts, i), t, sqrt);
    LayerPointsComplete(pts, mx, my, r, sqrt, LineCircle.PointAt(Edge(pts, i), t), i);
  }

  /** The points k .. n-1 of a well-posed polyline form a well-posed polyline. */
  lemma SliceWellPosed(pts: seq<Point>, k: nat, n: nat)
    requires k <= n <= |pts| && WellPosedPolyline(pts)
    ensures WellPosedPolyline(pts[k..n])
  {
    forall i | 1 <= i < n - k
      ensures LineCircle.WellPosed(Edge(pts[k..n], i))
    {
      assert Edge(pts[k..n], i) == Edge(pts, k + i);
    }
  }

  /**
   * Splitting the polyline at point k splits the result: the edges up to
   * point k, then the edges from point k on, in that order.
   */
  lemma LayerSplit(pts: seq<Point>, k: nat, mx: real, my: real, r: real, sqrt: real -> real)
    requires k < |pts| && WellPosedPolyline(pts)
    ensures WellPosedPolyline(pts[..k + 1]) && WellPosedPolyline(pts[k..])
    ensures LayerIntersections(pts, mx, my, r, sqrt) ==
            LayerIntersections(pts[..k + 1], mx, my, r, sqrt) + LayerIntersections(pts[k..], mx, my, r, sqrt)
  {
    SliceWellPosed(pts, 0, k + 1);
    SliceWellPosed(pts, k, |pts|);
    assert pts[0..k + 1] == pts[..k + 1];
    assert pts[k..|pts|] == pts[k..];
    EdgesSplit(pts, k, SegmentMode(mx, my, r, sqrt));
  }
}
