/**
 * The concrete cases of the library's unit tests for
 * `Line::circle_intersections` and `Layer::circle_intersections`, evaluated
 * in the model over exact reals.
 */
module Examples {
  import opened Arith
  import opened Shapes
  import opened PointLists
  import opened LineCircle
  import LayerCircle

  /** The line through (-10, 11) and (10, -9) crosses the circle (3, -5, 3) at (3, -2) and (6, -5). */
  lemma SecantLine(sqrt: real -> real)
    requires IsSquareRoot(sqrt)
    ensures WellPosed(Line(Point(-10.0, 11.0), Point(10.0, -9.0)))
    ensures Intersections(Line(Point(-10.0, 11.0), Point(10.0, -9.0)), 3.0, -5.0, 3.0, false, sqrt) ==
            [Point(3.0, -2.0), Point(6.0, -5.0)]
  {
    assert ImplicitOf(Line(Point(-10.0, 11.0), Point(10.0, -9.0))) == Implicit(-20.0, -20.0, 20.0);
    assert QuadraticOf(Implicit(-20.0, -20.0, 20.0), 3.0, -5.0, 3.0) == Quadratic(800.0, -7200.0, 14400.0, true);
    SquareRootUnique(sqrt, 5760000.0, 2400.0);
    assert Roots(Implicit(-20.0, -20.0, 20.0), Quadratic(800.0, -7200.0, 14400.0, true), sqrt) ==
           [Point(6.0, -5.0), Point(3.0, -2.0)];
    SortTwo(Point(6.0, -5.0), Point(3.0, -2.0));
  }

  /** The segment from (-10, 11) to (-11, -12) misses the circle (3, -5, 3): the discriminant is negative. */
  lemma MissingSegment(sqrt: real -> real)
    ensures WellPosed(Line(Point(-10.0, 11.0), Point(-11.0, -12.0)))
    ensures LineDiscriminant(Line(Point(-10.0, 11.0), Point(-11.0, -12.0)), 3.0, -5.0, 3.0) == -377820.0
    ensures Intersections(Line(Point(-10.0, 11.0), Point(-11.0, -12.0)), 3.0, -5.0, 3.0, true, sqrt) == []
  {
    assert ImplicitOf(Line(Point(-10.0, 11.0), Point(-11.0, -12.0))) == Implicit(-23.0, 1.0, -241.0);
    assert QuadraticOf(Implicit(-23.0, 1.0, -241.0), 3.0, -5.0, 3.0) == Quadratic(530.0, 11310.0, 60516.0, true);
  }

  /**
   * The line through (3, -2) and (7, -2) touches the circle (3, -5, 3): the
   * discriminant is exactly zero and the only candidate is (3, -2).
   */
  lemma TangentCandidates(sqrt: real -> real)
    ensures WellPosed(Line(Point(3.0, -2.0), Point(7.0, -2.0)))
    ensures Candidates(Line(Point(3.0, -2.0), Point(7.0, -2.0)), 3.0, -5.0, 3.0, sqrt) == [Point(3.0, -2.0)]
  {
    TangentQuadratic();
    TangentRoots(sqrt);
  }

  /** The implicit form and the quadratic of the tangent case. */
  lemma TangentQuadratic()
    ensures WellPosed(Line(Point(3.0, -2.0), Point(7.0, -2.0)))
    ensures ImplicitOf(Line(Point(3.0, -2.0), Point(7.0, -2.0))) == Implicit(0.0, -4.0, -8.0)
    ensures QuadraticOf(Implicit(0.0, -4.0, -8.0), 3.0, -5.0, 3.0) == Quadratic(16.0, -96.0, 144.0, true)
    ensures LineDiscriminant(Line(Point(3.0, -2.0), Point(7.0, -2.0)), 3.0, -5.0, 3.0) == 0.0
  {
  }

  /** The single root of the tangent case. */
  lemma TangentRoots(sqrt: real -> real)
    ensures Roots(Implicit(0.0, -4.0, -8.0), Quadratic(16.0, -96.0, 144.0, true), sqrt) == [Point(3.0, -2.0)]
  {
  }

  /** As a segment from (3, -2) to (7, -2) the tangent point, an end point, passes the containment test. */
  lemma TangentSegment(sqrt: real -> real)
    requires IsSquareRoot(sqrt)
    ensures WellPosed(Line(Point(3.0, -2.0), Point(7.0, -2.0)))
    ensures Intersections(Line(Point(3.0, -2.0), Point(7.0, -2.0)), 3.0, -5.0, 3.0, true, sqrt) == [Point(3.0, -2.0)]
  {
    var l := Line(Point(3.0, -2.0), Point(7.0, -2.0));
    TangentCandidates(sqrt);
    TangentWithin(sqrt);
    FilterShort(Point(3.0, -2.0), Point(3.0, -2.0), KeepOnSegment(l, sqrt));
  }

  /** The tangent point (3, -2) is an end point of the segment: the distances are 4, 0 and 4. */
  lemma TangentWithin(sqrt: real -> real)
    requires IsSquareRoot(sqrt)
    ensures OnSegment(Point(3.0, -2.0), Line(Point(3.0, -2.0), Point(7.0, -2.0)), sqrt)
  {
    SquareRootUnique(sqrt, 16.0, 4.0);
    SquareRootUnique(sqrt, 0.0, 0.0);
  }

  /**
   * The vertical line through (0, -3) and (0, 6) is solved in y: its
   * candidates on the circle (0, 0, 4) are (0, 4) and (0, -4).
   */
  lemma VerticalCandidates(sqrt: real -> real)
    requires IsSquareRoot(sqrt)
    ensures WellPosed(Line(Point(0.0, -3.0), Point(0.0, 6.0)))
    ensures Candidates(Line(Point(0.0, -3.0), Point(0.0, 6.0)), 0.0, 0.0, 4.0, sqrt) == [Point(0.0, 4.0), Point(0.0, -4.0)]
  {
    VerticalQuadratic();
    VerticalRoots(sqrt);
  }

  /** The implicit form and the quadratic (in y) of the vertical case. */
  lemma VerticalQuadratic()
    ensures WellPosed(Line(Point(0.0, -3.0), Point(0.0, 6.0)))
    ensures ImplicitOf(Line(Point(0.0, -3.0), Point(0.0, 6.0))) == Implicit(9.0, 0.0, 0.0)
    ensures QuadraticOf(Implicit(9.0, 0.0, 0.0), 0.0, 0.0, 4.0) == Quadratic(81.0, 0.0, -1296.0, false)
    ensures !QuadraticOf(ImplicitOf(Line(Point(0.0, -3.0), Point(0.0, 6.0))), 0.0, 0.0, 4.0).solveX
  {
  }

  /** The two roots of the vertical case, the square root of the discriminant being 648. */
  lemma VerticalRoots(sqrt: real -> real)
    requires IsSquareRoot(sqrt)
    ensures Roots(Implicit(9.0, 0.0, 0.0), Quadratic(81.0, 0.0, -1296.0, false), sqrt) ==
            [Point(0.0, 4.0), Point(0.0, -4.0)]
  {
    SquareRootUnique(sqrt, 419904.0, 648.0);
  }

  /**
   * As a line, the vertical line yields two points, both with x == 0; the
   * sort, finding them equal in x, keeps them in the order they were pushed.
   */
  lemma VerticalLine(sqrt: real -> real)
    requires IsSquareRoot(sqrt)
    ensures WellPosed(Line(Point(0.0, -3.0), Point(0.0, 6.0)))
    ensures Intersections(Line(Point(0.0, -3.0), Point(0.0, 6.0)), 0.0, 0.0, 4.0, false, sqrt) ==
            [Point(0.0, 4.0), Point(0.0, -4.0)]
  {
    VerticalCandidates(sqrt);
    SortTwo(Point(0.0, 4.0), Point(0.0, -4.0));
  }

  /** As a segment, the vertical line keeps only (0, 4): (0, -4) lies below its end point (0, -3). */
  lemma VerticalSegment(sqrt: real -> real)
    requires IsSquareRoot(sqrt)
    ensures WellPosed(Line(Point(0.0, -3.0), Point(0.0, 6.0)))
    ensures Intersections(Line(Point(0.0, -3.0), Point(0.0, 6.0)), 0.0, 0.0, 4.0, true, sqrt) == [Point(0.0, 4.0)]
  {
    var l := Line(Point(0.0, -3.0), Point(0.0, 6.0));
    VerticalCandidates(sqrt);
    VerticalWithin(sqrt);
    FilterShort(Point(0.0, 4.0), Point(0.0, -4.0), KeepOnSegment(l, sqrt));
  }

  /**
   * (0, 4) is within the segment from (0, -3) to (0, 6) (distances 9 = 7 + 2);
   * (0, -4) is not (distances 9, 1 and 10).
   */
  lemma VerticalWithin(sqrt: real -> real)
    requires IsSquareRoot(sqrt)
    ensures OnSegment(Point(0.0, 4.0), Line(Point(0.0, -3.0), Point(0.0, 6.0)), sqrt)
    ensures !OnSegment(Point(0.0, -4.0), Line(Point(0.0, -3.0), Point(0.0, 6.0)), sqrt)
  {
    SquareRootUnique(sqrt, 81.0, 9.0);
    SquareRootUnique(sqrt, 49.0, 7.0);
    SquareRootUnique(sqrt, 4.0, 2.0);
    SquareRootUnique(sqrt, 1.0, 1.0);
    SquareRootUnique(sqrt, 100.0, 10.0);
  }

  /**
   * The lines through (6, 3) and (10, 7) and through (7, 4) and (11, 8) are
   * the same line -4x + 4y + 12 == 0 (up to sign); on the circle (4, 2, 5)
   * its candidates are (8, 5) and (1, -2), in that order.
   */
  lemma DiagonalCandidates(l: Line, sqrt: real -> real)
    requires IsSquareRoot(sqrt)
    requires l == Line(Point(6.0, 3.0), Point(10.0, 7.0)) || l == Line(Point(7.0, 4.0), Point(11.0, 8.0))
    ensures WellPosed(l)
    ensures Candidates(l, 4.0, 2.0, 5.0, sqrt) == [Point(8.0, 5.0), Point(1.0, -2.0)]
  {
    DiagonalQuadratic();
    DiagonalRoots(sqrt);
  }

  /** The implicit form of both diagonal lines and their quadratic. */
  lemma DiagonalQuadratic()
    ensures WellPosed(Line(Point(6.0, 3.0), Point(10.0, 7.0))) && WellPosed(Line(Point(7.0, 4.0), Point(11.0, 8.0)))
    ensures ImplicitOf(Line(Point(6.0, 3.0), Point(10.0, 7.0))) == Implicit(4.0, -4.0, -12.0)
    ensures ImplicitOf(Line(Point(7.0, 4.0), Point(11.0, 8.0))) == Implicit(4.0, -4.0, -12.0)
    ensures QuadraticOf(Implicit(4.0, -4.0, -12.0), 4.0, 2.0, 5.0) == Quadratic(32.0, -288.0, 256.0, true)
  {
  }

  /** The two roots of the diagonal case, the square root of the discriminant being 224. */
  lemma DiagonalRoots(sqrt: real -> real)
    requires IsSquareRoot(sqrt)
    ensures Roots(Implicit(4.0, -4.0, -12.0), Quadratic(32.0, -288.0, 256.0, true), sqrt) ==
            [Point(8.0, 5.0), Point(1.0, -2.0)]
  {
    SquareRootUnique(sqrt, 50176.0, 224.0);
  }

  /** The line through (6, 3) and (10, 7) crosses the circle (4, 2, 5) at (1, -2) and (8, 5). */
  lemma SecantLineBeyondPoints(sqrt: real -> real)
    requires IsSquareRoot(sqrt)
    ensures WellPosed(Line(Point(6.0, 3.0), Point(10.0, 7.0)))
    ensures Intersections(Line(Point(6.0, 3.0), Point(10.0, 7.0)), 4.0, 2.0, 5.0, false, sqrt) ==
            [Point(1.0, -2.0), Point(8.0, 5.0)]
  {
    DiagonalCandidates(Line(Point(6.0, 3.0), Point(10.0, 7.0)), sqrt);
    SortTwo(Point(8.0, 5.0), Point(1.0, -2.0));
  }

  /** A square root of 2 is at least 1. */
  lemma SqrtTwoAtLeastOne(s: real)
    requires 0.0 <= s && s * s == 2.0
    ensures 1.0 <= s
  {
    if s < 1.0 {
      ProductPositive(1.0 + s, 1.0 - s, (1.0 + s) * (1.0 - s));
      assert false;
    }
  }

  /**
   * The segment from (7, 4) to (11, 8) lies on the same line as the previous
   * case; of the two points only (8, 5) is within it. The distances involved
   * are multiples of the square root of 2.
   */
  lemma SecantSegment(sqrt: real -> real)
    requires IsSquareRoot(sqrt)
    ensures WellPosed(Line(Point(7.0, 4.0), Point(11.0, 8.0)))
    ensures Intersections(Line(Point(7.0, 4.0), Point(11.0, 8.0)), 4.0, 2.0, 5.0, true, sqrt) == [Point(8.0, 5.0)]
  {
    var l := Line(Point(7.0, 4.0), Point(11.0, 8.0));
    DiagonalCandidates(l, sqrt);
    DiagonalWithin(sqrt);
    FilterShort(Point(8.0, 5.0), Point(1.0, -2.0), KeepOnSegment(l, sqrt));
  }

  /**
   * With s the square root of 2: (8, 5) is within the segment from (7, 4) to
   * (11, 8) (distances 4s = s + 3s); (1, -2) is not (distances 4s, 6s and 10s).
   */
  lemma DiagonalWithin(sqrt: real -> real)
    requires IsSquareRoot(sqrt)
    ensures OnSegment(Point(8.0, 5.0), Line(Point(7.0, 4.0), Point(11.0, 8.0)), sqrt)
    ensures !OnSegment(Point(1.0, -2.0), Line(Point(7.0, 4.0), Point(11.0, 8.0)), sqrt)
  {
    var s := sqrt(2.0);
    assert 0.0 <= s && s * s == 2.0;
    SqrtTwoAtLeastOne(s);
    SquareRootUnique(sqrt, 32.0, 4.0 * s);
    SquareRootUnique(sqrt, 18.0, 3.0 * s);
    SquareRootUnique(sqrt, 72.0, 6.0 * s);
    SquareRootUnique(sqrt, 200.0, 10.0 * s);
  }

  // ---------------------------------------------------------------------------
  // The layer test: a closed 10 x 10 square and the circle (5, 5, 5)

  /** A single candidate that passes the containment test is the whole segment-mode result. */
  lemma SingleCandidateKept(l: Line, mx: real, my: real, r: real, sqrt: real -> real, p: Point)
    requires WellPosed(l) && Candidates(l, mx, my, r, sqrt) == [p] && OnSegment(p, l, sqrt)
    ensures Intersections(l, mx, my, r, true, sqrt) == [p]
  {
    FilterShort(p, p, KeepOnSegment(l, sqrt));
  }

  /** The quadratic of the bottom edge of the square. */
  lemma BottomQuadratic()
    ensures WellPosed(Line(Point(0.0, 0.0), Point(10.0, 0.0)))
    ensures ImplicitOf(Line(Point(0.0, 0.0), Point(10.0, 0.0))) == Implicit(0.0, -10.0, 0.0)
    ensures QuadraticOf(Implicit(0.0, -10.0, 0.0), 5.0, 5.0, 5.0) == Quadratic(100.0, -1000.0, 2500.0, true)
  {
  }

  /** The single root of the bottom edge, the discriminant being zero. */
  lemma BottomRoots(sqrt: real -> real)
    ensures Roots(Implicit(0.0, -10.0, 0.0), Quadratic(100.0, -1000.0, 2500.0, true), sqrt) == [Point(5.0, 0.0)]
  {
  }

  /** The candidates of the bottom edge: its one tangent point. */
  lemma BottomCandidates(sqrt: real -> real)
    ensures WellPosed(Line(Point(0.0, 0.0), Point(10.0, 0.0)))
    ensures Candidates(Line(Point(0.0, 0.0), Point(10.0, 0.0)), 5.0, 5.0, 5.0, sqrt) == [Point(5.0, 0.0)]
  {
    BottomQuadratic();
    BottomRoots(sqrt);
  }

  /** The tangent point of the bottom edge lies halfway along it: the distances are 10, 5 and 5. */
  lemma BottomWithin(sqrt: real -> real)
    requires IsSquareRoot(sqrt)
    ensures OnSegment(Point(5.0, 0.0), Line(Point(0.0, 0.0), Point(10.0, 0.0)), sqrt)
  {
    SquareRootUnique(sqrt, 100.0, 10.0);
    SquareRootUnique(sqrt, 25.0, 5.0);
  }

  /** In segment mode the bottom edge, from (0, 0) to (10, 0), touches the circle at (5, 0). */
  lemma BottomEdge(sqrt: real -> real)
    requires IsSquareRoot(sqrt)
    ensures WellPosed(Line(Point(0.0, 0.0), Point(10.0, 0.0)))
    ensures Intersections(Line(Point(0.0, 0.0), Point(10.0, 0.0)), 5.0, 5.0, 5.0, true, sqrt) == [Point(5.0, 0.0)]
  {
    BottomCandidates(sqrt);
    BottomWithin(sqrt);
    SingleCandidateKept(Line(Point(0.0, 0.0), Point(10.0, 0.0)), 5.0, 5.0, 5.0, sqrt, Point(5.0, 0.0));
  }

  /** The quadratic of the right edge of the square. */
  lemma RightQuadratic()
    ensures WellPosed(Line(Point(10.0, 0.0), Point(10.0, 10.0)))
    ensures ImplicitOf(Line(Point(10.0, 0.0), Point(10.0, 10.0))) == Implicit(10.0, 0.0, -100.0)
    ensures QuadraticOf(Implicit(10.0, 0.0, -100.0), 5.0, 5.0, 5.0) == Quadratic(100.0, -1000.0, 2500.0, false)
  {
  }

  /** The single root of the right edge, the discriminant being zero. */
  lemma RightRoots(sqrt: real -> real)
    ensures Roots(Implicit(10.0, 0.0, -100.0), Quadratic(100.0, -1000.0, 2500.0, false), sqrt) == [Point(10.0, 5.0)]
  {
  }

  /** The candidates of the right edge: its one tangent point. */
  lemma RightCandidates(sqrt: real -> real)
    ensures WellPosed(Line(Point(10.0, 0.0), Point(10.0, 10.0)))
    ensures Candidates(Line(Point(10.0, 0.0), Point(10.0, 10.0)), 5.0, 5.0, 5.0, sqrt) == [Point(10.0, 5.0)]
  {
    RightQuadratic();
    RightRoots(sqrt);
  }

  /** The tangent point of the right edge lies halfway along it: the distances are 10, 5 and 5. */
  lemma RightWithin(sqrt: real -> real)
    requires IsSquareRoot(sqrt)
    ensures OnSegment(Point(10.0, 5.0), Line(Point(10.0, 0.0), Point(10.0, 10.0)), sqrt)
  {
    SquareRootUnique(sqrt, 100.0, 10.0);
    SquareRootUnique(sqrt, 25.0, 5.0);
  }

  /** In segment mode the right edge, from (10, 0) to (10, 10), is vertical and touches the circle at (10, 5). */
  lemma RightEdge(sqrt: real -> real)
    requires IsSquareRoot(sqrt)
    ensures WellPosed(Line(Point(10.0, 0.0), Point(10.0, 10.0)))
    ensures Intersections(Line(Point(10.0, 0.0), Point(10.0, 10.0)), 5.0, 5.0, 5.0, true, sqrt) == [Point(10.0, 5.0)]
  {
    RightCandidates(sqrt);
    RightWithin(sqrt);
    SingleCandidateKept(Line(Point(10.0, 0.0), Point(10.0, 10.0)), 5.0, 5.0, 5.0, sqrt, Point(10.0, 5.0));
  }

  /** The quadratic of the top edge of the square. */
  lemma TopQuadratic()
    ensures WellPosed(Line(Point(10.0, 10.0), Point(0.0, 10.0)))
    ensures ImplicitOf(Line(Point(10.0, 10.0), Point(0.0, 10.0))) == Implicit(0.0, 10.0, -100.0)
    ensures QuadraticOf(Implicit(0.0, 10.0, -100.0), 5.0, 5.0, 5.0) == Quadratic(100.0, -1000.0, 2500.0, true)
  {
  }

  /** The single root of the top edge, the discriminant being zero. */
  lemma TopRoots(sqrt: real -> real)
    ensures Roots(Implicit(0.0, 10.0, -100.0), Quadratic(100.0, -1000.0, 2500.0, true), sqrt) == [Point(5.0, 10.0)]
  {
  }

  /** The candidates of the top edge: its one tangent point. */
  lemma TopCandidates(sqrt: real -> real)
    ensures WellPosed(Line(Point(10.0, 10.0), Point(0.0, 10.0)))
    ensures Candidates(Line(Point(10.0, 10.0), Point(0.0, 10.0)), 5.0, 5.0, 5.0, sqrt) == [Point(5.0, 10.0)]
  {
    TopQuadratic();
    TopRoots(sqrt);
  }

  /** The tangent point of the top edge lies halfway along it: the distances are 10, 5 and 5. */
  lemma TopWithin(sqrt: real -> real)
    requires IsSquareRoot(sqrt)
    ensures OnSegment(Point(5.0, 10.0), Line(Point(10.0, 10.0), Point(0.0, 10.0)), sqrt)
  {
    SquareRootUnique(sqrt, 100.0, 10.0);
    SquareRootUnique(sqrt, 25.0, 5.0);
  }

  /** In segment mode the top edge, from (10, 10) to (0, 10), touches the circle at (5, 10). */
  lemma TopEdge(sqrt: real -> real)
    requires IsSquareRoot(sqrt)
    ensures WellPosed(Line(Point(10.0, 10.0), Point(0.0, 10.0)))
    ensures Intersections(Line(Point(10.0, 10.0), Point(0.0, 10.0)), 5.0, 5.0, 5.0, true, sqrt) == [Point(5.0, 10.0)]
  {
    TopCandidates(sqrt);
    TopWithin(sqrt);
    SingleCandidateKept(Line(Point(10.0, 10.0), Point(0.0, 10.0)), 5.0, 5.0, 5.0, sqrt, Point(5.0, 10.0));
  }

  /** The quadratic of the left edge of the square. */
  lemma LeftQuadratic()
    ensures WellPosed(Line(Point(0.0, 10.0), Point(0.0, 0.0)))
    ensures ImplicitOf(Line(Point(0.0, 10.0), Point(0.0, 0.0))) == Implicit(-10.0, 0.0, 0.0)
    ensures QuadraticOf(Implicit(-10.0, 0.0, 0.0), 5.0, 5.0, 5.0) == Quadratic(100.0, -1000.0, 2500.0, false)
  {
  }

  /** The single root of the left edge, the discriminant being zero. */
  lemma LeftRoots(sqrt: real -> real)
    ensures Roots(Implicit(-10.0, 0.0, 0.0), Quadratic(100.0, -1000.0, 2500.0, false), sqrt) == [Point(0.0, 5.0)]
  {
  }

  /** The candidates of the left edge: its one tangent point. */
  lemma LeftCandidates(sqrt: real -> real)
    ensures WellPosed(Line(Point(0.0, 10.0), Point(0.0, 0.0)))
    ensures Candidates(Line(Point(0.0, 10.0), Point(0.0, 0.0)), 5.0, 5.0, 5.0, sqrt) == [Point(0.0, 5.0)]
  {
    LeftQuadratic();
    LeftRoots(sqrt);
  }

  /** The tangent point of the left edge lies halfway along it: the distances are 10, 5 and 5. */
  lemma LeftWithin(sqrt: real -> real)
    requires IsSquareRoot(sqrt)
    ensures OnSegment(Point(0.0, 5.0), Line(Point(0.0, 10.0), Point(0.0, 0.0)), sqrt)
  {
    SquareRootUnique(sqrt, 100.0, 10.0);
    SquareRootUnique(sqrt, 25.0, 5.0);
  }

  /** In segment mode the left edge, from (0, 10) to (0, 0), is vertical and touches the circle at (0, 5). */
  lemma LeftEdge(sqrt: real -> real)
    requires IsSquareRoot(sqrt)
    ensures WellPosed(Line(Point(0.0, 10.0), Point(0.0, 0.0)))
    ensures Intersections(Line(Point(0.0, 10.0), Point(0.0, 0.0)), 5.0, 5.0, 5.0, true, sqrt) == [Point(0.0, 5.0)]
  {
    LeftCandidates(sqrt);
    LeftWithin(sqrt);
    SingleCandidateKept(Line(Point(0.0, 10.0), Point(0.0, 0.0)), 5.0, 5.0, 5.0, sqrt, Point(0.0, 5.0));
  }

  /** The closed square: five points, four edges. */
  function ClosedSquare(): seq<Point>
  {
    [Point(0.0, 0.0), Point(10.0, 0.0), Point(10.0, 10.0), Point(0.0, 10.0), Point(0.0, 0.0)]
  }

  /** Every edge of the square can be intersected. */
  lemma SquareWellPosed()
    ensures LayerCircle.WellPosedPolyline(ClosedSquare())
  {
    var pts := ClosedSquare();
    forall i | 1 <= i < |pts|
      ensures WellPosed(LayerCircle.Edge(pts, i))
    {
      if i == 1 {
        BottomQuadratic();
      } else if i == 2 {
        RightQuadratic();
      } else if i == 3 {
        TopQuadratic();
      } else {
        LeftQuadratic();
      }
    }
  }

  /** Edge 1 of the square is its bottom edge. */
  lemma BottomResult(pts: seq<Point>, sqrt: real -> real)
    requires pts == ClosedSquare() && IsSquareRoot(sqrt)
    ensures LayerCircle.SegmentMode(5.0, 5.0, 5.0, sqrt)(LayerCircle.Edge(pts, 1)) == [Point(5.0, 0.0)]
  {
    BottomEdge(sqrt);
    assert LayerCircle.Edge(pts, 1) == Line(Point(0.0, 0.0), Point(10.0, 0.0));
  }

  /** Edge 2 of the square is its right edge. */
  lemma RightResult(pts: seq<Point>, sqrt: real -> real)
    requires pts == ClosedSquare() && IsSquareRoot(sqrt)
    ensures LayerCircle.SegmentMode(5.0, 5.0, 5.0, sqrt)(LayerCircle.Edge(pts, 2)) == [Point(10.0, 5.0)]
  {
    RightEdge(sqrt);
    assert LayerCircle.Edge(pts, 2) == Line(Point(10.0, 0.0), Point(10.0, 10.0));
  }

  /** Edge 3 of the square is its top edge. */
  lemma TopResult(pts: seq<Point>, sqrt: real -> real)
    requires pts == ClosedSquare() && IsSquareRoot(sqrt)
    ensures LayerCircle.SegmentMode(5.0, 5.0, 5.0, sqrt)(LayerCircle.Edge(pts, 3)) == [Point(5.0, 10.0)]
  {
    TopEdge(sqrt);
    assert LayerCircle.Edge(pts, 3) == Line(Point(10.0, 10.0), Point(0.0, 10.0));
  }

  /** Edge 4 of the square is its left edge. */
  lemma LeftResult(pts: seq<Point>, sqrt: real -> real)
    requires pts == ClosedSquare() && IsSquareRoot(sqrt)
    ensures LayerCircle.SegmentMode(5.0, 5.0, 5.0, sqrt)(LayerCircle.Edge(pts, 4)) == [Point(0.0, 5.0)]
  {
    LeftEdge(sqrt);
    assert LayerCircle.Edge(pts, 4) == Line(Point(0.0, 10.0), Point(0.0, 0.0));
  }

  /** A polyline of four edges, each yielding one point, yields the four points in edge order. */
  lemma FourEdges(pts: seq<Point>, seg: Line -> seq<Point>, a: Point, b: Point, c: Point, d: Point)
    requires |pts| == 5
    requires seg(LayerCircle.Edge(pts, 1)) == [a] && seg(LayerCircle.Edge(pts, 2)) == [b]
    requires seg(LayerCircle.Edge(pts, 3)) == [c] && seg(LayerCircle.Edge(pts, 4)) == [d]
    ensures Concat(LayerCircle.EdgeResults(pts, seg)) == [a, b, c, d]
  {
    var ss := LayerCircle.EdgeResults(pts, seg);
    ConcatPrefixStep(ss, 1);
    ConcatPrefixStep(ss, 2);
    ConcatPrefixStep(ss, 3);
    ConcatPrefixStep(ss, 4);
    assert ss[..0] == [];
    assert ss[..4] == ss;
  }

  /**
   * Each edge of the closed 10 x 10 square touches the circle (5, 5, 5) at
   * its midpoint, so the layer yields four points, edge by edge.
   */
  lemma SquareLayer(pts: seq<Point>, sqrt: real -> real)
    requires pts == ClosedSquare() && IsSquareRoot(sqrt)
    ensures LayerCircle.WellPosedPolyline(pts)
    ensures LayerCircle.LayerIntersections(pts, 5.0, 5.0, 5.0, sqrt) ==
            [Point(5.0, 0.0), Point(10.0, 5.0), Point(5.0, 10.0), Point(0.0, 5.0)]
    ensures |LayerCircle.LayerIntersections(pts, 5.0, 5.0, 5.0, sqrt)| == 4
  {
    SquareWellPosed();
    BottomResult(pts, sqrt);
    RightResult(pts, sqrt);
    TopResult(pts, sqrt);
    LeftResult(pts, sqrt);
    FourEdges(pts, LayerCircle.SegmentMode(5.0, 5.0, 5.0, sqrt),
              Point(5.0, 0.0), Point(10.0, 5.0), Point(5.0, 10.0), Point(0.0, 5.0));
  }
}
