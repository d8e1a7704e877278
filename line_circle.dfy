/**
 * Intersection of a line (or of the segment between its two points) with a
 * circle, as `Line::circle_intersections` computes it: the line is put in
 * implicit form, substituted into the circle equation, and the resulting
 * quadratic is solved in x, or in y when the line is (nearly) vertical.
 *
 * Arithmetic is over exact reals; the floating-point square root is the
 * parameter `sqrt`, and the properties that depend on it require
 * `IsSquareRoot(sqrt)`.
 */
module LineCircle {
  import opened Arith
  import opened Shapes
  import opened PointLists

  /** Coefficients of the implicit line equation ca*x + cb*y + cc == 0. */
  datatype Implicit = Implicit(ca: real, cb: real, cc: real)

  /** The quadratic a*t*t + b*t + c == 0, whose unknown t is x when solveX holds and y otherwise. */
  datatype Quadratic = Quadratic(a: real, b: real, c: real, solveX: bool)

  /** The implicit equation of the line through the two points of `l`. */
  function ImplicitOf(l: Line): Implicit
  {
    Implicit(l.p2.y - l.p1.y, l.p1.x - l.p2.x, l.p2.x * l.p1.y - l.p1.x * l.p2.y)
  }

  /**
   * The branch the tolerance selects can divide: by cb when |cb| >= EPS,
   * by ca otherwise.
   */
  predicate NonDegenerate(f: Implicit)
  {
    Abs(f.cb) >= EPS || f.ca != 0.0
  }

  predicate WellPosed(l: Line)
  {
    NonDegenerate(ImplicitOf(l))
  }

  predicate OnImplicit(p: Point, f: Implicit)
  {
    f.ca * p.x + f.cb * p.y + f.cc == 0.0
  }

  predicate OnLine(p: Point, l: Line)
  {
    OnImplicit(p, ImplicitOf(l))
  }

  /** (x - mx)^2 + (y - my)^2 - r^2: zero exactly on the circle. */
  function Residual(p: Point, mx: real, my: real, r: real): real
  {
    (p.x - mx) * (p.x - mx) + (p.y - my) * (p.y - my) - r * r
  }

  predicate OnCircle(p: Point, mx: real, my: real, r: real)
  {
    Residual(p, mx, my, r) == 0.0
  }

  /** ca*ca + cb*cb: the leading coefficient of the quadratic in either branch. */
  function Leading(f: Implicit): real
  {
    f.ca * f.ca + f.cb * f.cb
  }

  /** b when x is solved for: 2(ca*cc + ca*cb*my - cb^2*mx). */
  function XLinear(f: Implicit, mx: real, my: real): real
  {
    2.0 * (f.ca * f.cc + f.ca * f.cb * my - f.cb * f.cb * mx)
  }

  /** c when x is solved for: cc^2 + 2*cb*cc*my - cb^2*(r^2 - mx^2 - my^2). */
  function XConstant(f: Implicit, mx: real, my: real, r: real): real
  {
    f.cc * f.cc + 2.0 * f.cb * f.cc * my - f.cb * f.cb * (r * r - mx * mx - my * my)
  }

  /** b when y is solved for: 2(cb*cc + ca*cb*mx - ca^2*my). */
  function YLinear(f: Implicit, mx: real, my: real): real
  {
    2.0 * (f.cb * f.cc + f.ca * f.cb * mx - f.ca * f.ca * my)
  }

  /** c when y is solved for: cc^2 + 2*ca*cc*mx - ca^2*(r^2 - mx^2 - my^2). */
  function YConstant(f: Implicit, mx: real, my: real, r: real): real
  {
    f.cc * f.cc + 2.0 * f.ca * f.cc * mx - f.ca * f.ca * (r * r - mx * mx - my * my)
  }

  /** The quadratic obtained by eliminating y (when |cb| >= EPS) or x (otherwise). */
  function QuadraticOf(f: Implicit, mx: real, my: real, r: real): Quadratic
  {
    if Abs(f.cb) >= EPS then
      Quadratic(Leading(f), XLinear(f, mx, my), XConstant(f, mx, my, r), true)
    else
      Quadratic(Leading(f), YLinear(f, mx, my), YConstant(f, mx, my, r), false)
  }

  function Discriminant(q: Quadratic): real
  {
    q.b * q.b - 4.0 * q.a * q.c
  }

  /** The discriminant for line `l` and the circle (mx, my, r). */
  function LineDiscriminant(l: Line, mx: real, my: real, r: real): real
  {
    Discriminant(QuadraticOf(ImplicitOf(l), mx, my, r))
  }

  /** The value of the quadratic at t. */
  function Eval(q: Quadratic, t: real): real
  {
    q.a * t * t + q.b * t + q.c
  }

  /** fx: the ordinate of the point of the line whose abscissa is x. */
  function Fx(x: real, ca: real, cb: real, cc: real): (y: real)
    requires cb != 0.0
    ensures ca * x + cb * y + cc == 0.0
  {
    -(ca * x + cc) / cb
  }

  /** The point (x, fx(x)) lies on the line. */
  lemma FxOnLine(f: Implicit, x: real)
    requires f.cb != 0.0
    ensures OnImplicit(Point(x, Fx(x, f.ca, f.cb, f.cc)), f)
  {
  }

  /** fy: the abscissa of the point of the line whose ordinate is y. */
  function Fy(y: real, ca: real, cb: real, cc: real): (x: real)
    requires ca != 0.0
    ensures ca * x + cb * y + cc == 0.0
  {
    -(cb * y + cc) / ca
  }

  /** The point (fy(y), y) lies on the line. */
  lemma FyOnLine(f: Implicit, y: real)
    requires f.ca != 0.0
    ensures OnImplicit(Point(Fy(y, f.ca, f.cb, f.cc), y), f)
  {
  }

  /**
   * within: the point (x, y) lies on the segment from (x1, y1) to (x2, y2)
   * when the distances through it add up to the length of the segment, up to EPS.
   */
  predicate Within(x: real, y: real, x1: real, y1: real, x2: real, y2: real, sqrt: real -> real)
  {
    var d1 := sqrt((x2 - x1) * (x2 - x1) + (y2 - y1) * (y2 - y1));
    var d2 := sqrt((x - x1) * (x - x1) + (y - y1) * (y - y1));
    var d3 := sqrt((x2 - x) * (x2 - x) + (y2 - y) * (y2 - y));
    Abs(d1 - d2 - d3) < EPS
  }

  predicate OnSegment(p: Point, l: Line, sqrt: real -> real)
  {
    Within(p.x, p.y, l.p1.x, l.p1.y, l.p2.x, l.p2.y, sqrt)
  }

  /** The containment test of segment `l`, as the test `Filter` applies. */
  function KeepOnSegment(l: Line, sqrt: real -> real): Point -> bool
  {
    p => OnSegment(p, l, sqrt)
  }

  /** The roots can be computed: a is non-zero and the recovering division is defined. */
  predicate Solvable(f: Implicit, q: Quadratic)
  {
    q.a != 0.0 && (q.solveX ==> f.cb != 0.0) && (!q.solveX ==> f.ca != 0.0)
  }

  /**
   * On a non-degenerate line the quadratic is in x exactly when |cb| >= EPS,
   * and its leading coefficient a is positive.
   */
  lemma QuadraticSolvable(f: Implicit, mx: real, my: real, r: real)
    requires NonDegenerate(f)
    ensures QuadraticOf(f, mx, my, r).a > 0.0
    ensures QuadraticOf(f, mx, my, r).solveX <==> Abs(f.cb) >= EPS
    ensures Solvable(f, QuadraticOf(f, mx, my, r))
  {
    LeadingPositive(f);
  }

  /** The leading coefficient is positive unless both ca and cb vanish. */
  lemma LeadingPositive(f: Implicit)
    requires f.ca != 0.0 || f.cb != 0.0
    ensures Leading(f) > 0.0
  {
    SquareNonNegative(f.ca);
    SquareNonNegative(f.cb);
    if f.ca != 0.0 {
      SquarePositive(f.ca);
    } else {
      SquarePositive(f.cb);
    }
    assert Leading(f) == Square(f.ca) + Square(f.cb);
  }

  /** The point of the line whose solved coordinate (x or y, as `q` selects) is t. */
  function Root(f: Implicit, q: Quadratic, t: real): Point
    requires Solvable(f, q)
  {
    if q.solveX then Point(t, Fx(t, f.ca, f.cb, f.cc)) else Point(Fy(t, f.ca, f.cb, f.cc), t)
  }

  /**
   * The points in the order the source pushes them: none when the
   * discriminant is negative, the tangent point when it is exactly zero, and
   * the roots (-b + sqrt d)/2a and (-b - sqrt d)/2a otherwise.
   */
  function Roots(f: Implicit, q: Quadratic, sqrt: real -> real): seq<Point>
    requires Solvable(f, q)
  {
    var d := Discriminant(q);
    if d < 0.0 then []
    else if d == 0.0 then [Root(f, q, -q.b / (2.0 * q.a))]
    else [Root(f, q, (-q.b + sqrt(d)) / (2.0 * q.a)), Root(f, q, (-q.b - sqrt(d)) / (2.0 * q.a))]
  }

  /** The candidate points of line `l` and the circle (mx, my, r), before any containment test. */
  function Candidates(l: Line, mx: real, my: real, r: real, sqrt: real -> real): seq<Point>
    requires WellPosed(l)
  {
    var f := ImplicitOf(l);
    QuadraticSolvable(f, mx, my, r);
    Roots(f, QuadraticOf(f, mx, my, r), sqrt)
  }

  /**
   * What `Line::circle_intersections` returns: the candidates (those within
   * the segment when `segment` holds), sorted by x.
   */
  function Intersections(l: Line, mx: real, my: real, r: real, segment: bool, sqrt: real -> real): seq<Point>
    requires WellPosed(l)
  {
    var cands := Candidates(l, mx, my, r, sqrt);
    SortByX(if segment then Filter(cands, KeepOnSegment(l, sqrt)) else cands)
  }

  /** rxy: pushes (x, y) unless segment mode is on and the point is not within the segment. */
  method Rxy(x: real, y: real, x1: real, y1: real, x2: real, y2: real, segment: bool,
             sqrt: real -> real, intersections: seq<Point>)
    returns (pushed: seq<Point>)
    ensures !segment || Within(x, y, x1, y1, x2, y2, sqrt) ==> pushed == intersections + [Point(x, y)]
    ensures segment && !Within(x, y, x1, y1, x2, y2, sqrt) ==> pushed == intersections
  {
    pushed := intersections;
    if !segment || Within(x, y, x1, y1, x2, y2, sqrt) {
      pushed := pushed + [Point(x, y)];
    }
  }

  /**
   * The pushing phase of `Line::circle_intersections` once d = b*b - 4ac is
   * known not to be negative: the tangent point when d is exactly zero, the two
   * roots (-b + sqrt d)/2a and (-b - sqrt d)/2a otherwise, each through rxy.
   */
  method PushRoots(f: Implicit, q: Quadratic, d: real, line: Line, segment: bool, sqrt: real -> real)
    returns (intersections: seq<Point>)
    requires Solvable(f, q) && d == Discriminant(q) && d >= 0.0
    ensures intersections == if segment then Filter(Roots(f, q, sqrt), KeepOnSegment(line, sqrt)) else Roots(f, q, sqrt)
  {
    intersections := [];
    var x1, y1 := line.p1.x, line.p1.y;
    var x2, y2 := line.p2.x, line.p2.y;
    ghost var keep := KeepOnSegment(line, sqrt);
    if d == 0.0 {
      var t := -q.b / (2.0 * q.a);
      if q.solveX {
        var x := t;
        var y := Fx(x, f.ca, f.cb, f.cc);
        intersections := Rxy(x, y, x1, y1, x2, y2, segment, sqrt, intersections);
      } else {
        var y := t;
        var x := Fy(y, f.ca, f.cb, f.cc);
        intersections := Rxy(x, y, x1, y1, x2, y2, segment, sqrt, intersections);
      }
      RootsTangent(f, q, sqrt);
      FilterShort(Root(f, q, t), Root(f, q, t), keep);
    } else {
      var s := sqrt(d);
      var t1 := (-q.b + s) / (2.0 * q.a);
      var t2 := (-q.b - s) / (2.0 * q.a);
      if q.solveX {
        var x := t1;
        var y := Fx(x, f.ca, f.cb, f.cc);
        intersections := Rxy(x, y, x1, y1, x2, y2, segment, sqrt, intersections);
        x := t2;
        y := Fx(x, f.ca, f.cb, f.cc);
        intersections := Rxy(x, y, x1, y1, x2, y2, segment, sqrt, intersections);
      } else {
        var y := t1;
        var x := Fy(y, f.ca, f.cb, f.cc);
        intersections := Rxy(x, y, x1, y1, x2, y2, segment, sqrt, intersections);
        y := t2;
        x := Fy(y, f.ca, f.cb, f.cc);
        intersections := Rxy(x, y, x1, y1, x2, y2, segment, sqrt, intersections);
      }
      RootsSecant(f, q, sqrt);
      FilterShort(Root(f, q, t1), Root(f, q, t2), keep);
    }
  }

  /** A zero discriminant gives the single candidate at -b/2a. */
  lemma RootsTangent(f: Implicit, q: Quadratic, sqrt: real -> real)
    requires Solvable(f, q) && Discriminant(q) == 0.0
    ensures Roots(f, q, sqrt) == [Root(f, q, -q.b / (2.0 * q.a))]
  {
  }

  /** A positive discriminant gives the two candidates at (-b + sqrt d)/2a and (-b - sqrt d)/2a, in that order. */
  lemma RootsSecant(f: Implicit, q: Quadratic, sqrt: real -> real)
    requires Solvable(f, q) && Discriminant(q) > 0.0
    ensures Roots(f, q, sqrt) == [Root(f, q, (-q.b + sqrt(Discriminant(q))) / (2.0 * q.a)),
                                  Root(f, q, (-q.b - sqrt(Discriminant(q))) / (2.0 * q.a))]
  {
  }

  /**
   * `Line::circle_intersections`: where the line (or segment) meets the
   * circle (mx, my, r). The coefficients and the discriminant come from the
   * functions above; the candidates are pushed one by one and then sorted.
   */
  method CircleIntersections(line: Line, mx: real, my: real, r: real, segment: bool, sqrt: real -> real)
    returns (intersections: seq<Point>)
    requires WellPosed(line)
    ensures intersections == Intersections(line, mx, my, r, segment, sqrt)
    ensures SortedByX(intersections)
    ensures LineDiscriminant(line, mx, my, r) < 0.0 ==> intersections == []
    ensures !segment ==> |intersections| == (var d := LineDiscriminant(line, mx, my, r);
                                             if d < 0.0 then 0 else if d == 0.0 then 1 else 2)
    ensures segment ==> intersections == Filter(Intersections(line, mx, my, r, false, sqrt), KeepOnSegment(line, sqrt))
    ensures IsSquareRoot(sqrt) ==>
              forall p :: p in intersections ==> OnLine(p, line) && OnCircle(p, mx, my, r)
    ensures IsSquareRoot(sqrt) ==>
              forall p :: OnLine(p, line) && OnCircle(p, mx, my, r) && (!segment || OnSegment(p, line, sqrt)) ==>
                p in intersections
  {
    IntersectionsSorted(line, mx, my, r, segment, sqrt);
    CandidateCount(line, mx, my, r, sqrt);
    SegmentIsFilter(line, mx, my, r, sqrt);
    if IsSquareRoot(sqrt) {
      IntersectionsOnLineAndCircle(line, mx, my, r, segment, sqrt);
      IntersectionsCompleteAll(line, mx, my, r, segment, sqrt);
    }

    intersections := [];
    var f := ImplicitOf(line);
    var q := QuadraticOf(f, mx, my, r);
    QuadraticSolvable(f, mx, my, r);
    var d := Discriminant(q);
    if d < 0.0 {
      return;
    }

    intersections := PushRoots(f, q, d, line, segment, sqrt);
    intersections := SortByX(intersections);
  }

  // ---------------------------------------------------------------------------
  // Ordering, count, and segment mode as a filter of line mode

  /**
   * Before any containment test there is no candidate when the discriminant
   * is negative, one when it is zero and two when it is positive.
   */
  lemma CandidateCount(l: Line, mx: real, my: real, r: real, sqrt: real -> real)
    requires WellPosed(l)
    ensures var d := LineDiscriminant(l, mx, my, r);
            |Candidates(l, mx, my, r, sqrt)| == if d < 0.0 then 0 else if d == 0.0 then 1 else 2
  {
  }

  /**
   * Both modes return their points sorted by x, at most two of them, all
   * among the candidates; line mode returns every candidate.
   */
  lemma IntersectionsSorted(l: Line, mx: real, my: real, r: real, segment: bool, sqrt: real -> real)
    requires WellPosed(l)
    ensures var res := Intersections(l, mx, my, r, segment, sqrt);
            && SortedByX(res)
            && |res| <= 2
            && (!segment ==> |res| == |Candidates(l, mx, my, r, sqrt)|)
            && forall p :: p in res ==> p in Candidates(l, mx, my, r, sqrt)
  {
    var cands := Candidates(l, mx, my, r, sqrt);
    SortByXSorted(if segment then Filter(cands, KeepOnSegment(l, sqrt)) else cands);
  }

  /**
   * With segment == true the result is exactly the segment == false result
   * with the points that fail the containment test removed: in the same
   * order, nothing added.
   */
  lemma SegmentIsFilter(l: Line, mx: real, my: real, r: real, sqrt: real -> real)
    requires WellPosed(l)
    ensures Intersections(l, mx, my, r, true, sqrt) ==
            Filter(Intersections(l, mx, my, r, false, sqrt), KeepOnSegment(l, sqrt))
  {
    FilterSort(Candidates(l, mx, my, r, sqrt), KeepOnSegment(l, sqrt));
  }

  // ---------------------------------------------------------------------------
  // The algebra: every candidate lies on the line and on the circle

  /** Both roots (-b +- s)/2a, with s*s the discriminant, solve a*t*t + b*t + c == 0. */
  lemma QuadraticRoot(a: real, b: real, c: real, s: real, t: real)
    requires a != 0.0
    requires s * s == b * b - 4.0 * a * c
    requires t == (-b + s) / (2.0 * a) || t == (-b - s) / (2.0 * a)
    ensures a * t * t + b * t + c == 0.0
  {
    var u := 2.0 * a * t + b;
    var e := a * t * t + b * t + c;
    assert u == s || u == -s;
    assert u * u == s * s;
    assert (4.0 * a) * e == u * u - (b * b - 4.0 * a * c);
    ZeroFactor(4.0 * a, e, (4.0 * a) * e);
  }

  /** The same for a quadratic datatype: (-b +- s)/2a is a zero of Eval. */
  lemma EvalRoot(q: Quadratic, s: real, t: real)
    requires q.a != 0.0
    requires s * s == Discriminant(q)
    requires t == (-q.b + s) / (2.0 * q.a) || t == (-q.b - s) / (2.0 * q.a)
    ensures Eval(q, t) == 0.0
  {
    QuadraticRoot(q.a, q.b, q.c, s, t);
  }

  /** A point Root(f, q, t) is recovered from its own solved coordinate. */
  lemma RootCoordinate(f: Implicit, q: Quadratic, t: real)
    requires Solvable(f, q)
    ensures var p := Root(f, q, t);
            (if q.solveX then p.x else p.y) == t
  {
  }

  /** Every point the roots give is Root(f, q, t) for a root t of the quadratic. */
  lemma RootsSolveQuadratic(f: Implicit, q: Quadratic, sqrt: real -> real)
    requires Solvable(f, q) && IsSquareRoot(sqrt)
    ensures forall p :: p in Roots(f, q, sqrt) ==>
              var t := if q.solveX then p.x else p.y;
              p == Root(f, q, t) && Eval(q, t) == 0.0
  {
    var d := Discriminant(q);
    if d == 0.0 {
      var t := -q.b / (2.0 * q.a);
      EvalRoot(q, 0.0, t);
      RootCoordinate(f, q, t);
      assert Roots(f, q, sqrt) == [Root(f, q, t)];
    } else if d > 0.0 {
      var s := sqrt(d);
      assert s * s == d;
      var t1 := (-q.b + s) / (2.0 * q.a);
      var t2 := (-q.b - s) / (2.0 * q.a);
      EvalRoot(q, s, t1);
      EvalRoot(q, s, t2);
      RootCoordinate(f, q, t1);
      RootCoordinate(f, q, t2);
      assert Roots(f, q, sqrt) == [Root(f, q, t1), Root(f, q, t2)];
    }
  }

  /**
   * Substituting a point of the line ca*x + cb*y + cc == 0 into the circle
   * equation: cb*cb times the residual is the quadratic in x of the |cb| >= EPS
   * branch. With the roles of x and y (and of ca and cb) exchanged it is the
   * quadratic in y of the other branch.
   */
  lemma Elimination(ca: real, cb: real, cc: real, mx: real, my: real, r: real,
                    x: real, y: real, a: real, b: real, c: real, e: real)
    requires ca * x + cb * y + cc == 0.0
    requires a == ca * ca + cb * cb
    requires b == 2.0 * (ca * cc + ca * cb * my - cb * cb * mx)
    requires c == cc * cc + 2.0 * cb * cc * my - cb * cb * (r * r - mx * mx - my * my)
    requires e == (x - mx) * (x - mx) + (y - my) * (y - my) - r * r
    ensures cb * cb * e == a * x * x + b * x + c
  {
    var w := ca * x + cc + cb * my;
    assert cb * (y - my) == -w;
    assert cb * cb * ((y - my) * (y - my)) == w * w;
  }

  /** The quadratic of the |cb| >= EPS branch, evaluated at x. */
  lemma EvalX(f: Implicit, mx: real, my: real, r: real, x: real)
    requires Abs(f.cb) >= EPS
    ensures Eval(QuadraticOf(f, mx, my, r), x) ==
            Leading(f) * x * x + XLinear(f, mx, my) * x + XConstant(f, mx, my, r)
  {
  }

  /** The quadratic of the |cb| < EPS branch, evaluated at y. */
  lemma EvalY(f: Implicit, mx: real, my: real, r: real, y: real)
    requires Abs(f.cb) < EPS
    ensures Eval(QuadraticOf(f, mx, my, r), y) ==
            Leading(f) * y * y + YLinear(f, mx, my) * y + YConstant(f, mx, my, r)
  {
  }

  /** On the line, cb*cb times the residual is the quadratic in x of the |cb| >= EPS branch. */
  lemma EliminationX(f: Implicit, mx: real, my: real, r: real, x: real, y: real)
    requires OnImplicit(Point(x, y), f)
    ensures f.cb * f.cb * Residual(Point(x, y), mx, my, r) ==
            Leading(f) * x * x + XLinear(f, mx, my) * x + XConstant(f, mx, my, r)
  {
    Elimination(f.ca, f.cb, f.cc, mx, my, r, x, y,
                Leading(f), XLinear(f, mx, my), XConstant(f, mx, my, r), Residual(Point(x, y), mx, my, r));
  }

  /** On the line, ca*ca times the residual is the quadratic in y of the other branch. */
  lemma EliminationY(f: Implicit, mx: real, my: real, r: real, x: real, y: real)
    requires OnImplicit(Point(x, y), f)
    ensures f.ca * f.ca * Residual(Point(x, y), mx, my, r) ==
            Leading(f) * y * y + YLinear(f, mx, my) * y + YConstant(f, mx, my, r)
  {
    Elimination(f.cb, f.ca, f.cc, my, mx, r, y, x,
                Leading(f), YLinear(f, mx, my), YConstant(f, mx, my, r), Residual(Point(x, y), mx, my, r));
  }

  /** A root x of the x-quadratic gives through fx a point of the line and of the circle. */
  lemma RootOnCircleX(f: Implicit, mx: real, my: real, r: real, x: real)
    requires Abs(f.cb) >= EPS
    requires Eval(QuadraticOf(f, mx, my, r), x) == 0.0
    ensures f.cb != 0.0
    ensures OnImplicit(Point(x, Fx(x, f.ca, f.cb, f.cc)), f) && OnCircle(Point(x, Fx(x, f.ca, f.cb, f.cc)), mx, my, r)
  {
    var y := Fx(x, f.ca, f.cb, f.cc);
    FxOnLine(f, x);
    EliminationX(f, mx, my, r, x, y);
    EvalX(f, mx, my, r, x);
    CancelSquare(f.cb, Residual(Point(x, y), mx, my, r), Eval(QuadraticOf(f, mx, my, r), x));
  }

  /** A root y of the y-quadratic gives through fy a point of the line and of the circle. */
  lemma RootOnCircleY(f: Implicit, mx: real, my: real, r: real, y: real)
    requires Abs(f.cb) < EPS && f.ca != 0.0
    requires Eval(QuadraticOf(f, mx, my, r), y) == 0.0
    ensures OnImplicit(Point(Fy(y, f.ca, f.cb, f.cc), y), f) && OnCircle(Point(Fy(y, f.ca, f.cb, f.cc), y), mx, my, r)
  {
    var x := Fy(y, f.ca, f.cb, f.cc);
    FyOnLine(f, y);
    EliminationY(f, mx, my, r, x, y);
    EvalY(f, mx, my, r, y);
    CancelSquare(f.ca, Residual(Point(x, y), mx, my, r), Eval(QuadraticOf(f, mx, my, r), y));
  }

  /** A root t of the quadratic gives, through fx or fy, a point on the line and on the circle. */
  lemma RootOnLineAndCircle(f: Implicit, mx: real, my: real, r: real, t: real)
    requires NonDegenerate(f)
    requires Eval(QuadraticOf(f, mx, my, r), t) == 0.0
    ensures Solvable(f, QuadraticOf(f, mx, my, r))
    ensures var p := Root(f, QuadraticOf(f, mx, my, r), t);
            OnImplicit(p, f) && OnCircle(p, mx, my, r)
  {
    QuadraticSolvable(f, mx, my, r);
    if Abs(f.cb) >= EPS {
      RootOnCircleX(f, mx, my, r, t);
    } else {
      RootOnCircleY(f, mx, my, r, t);
    }
  }

  /**
   * Branch selection: when |cb| >= EPS every candidate's x is a root of the
   * quadratic and its y is fx(x); otherwise its y is a root and its x is fy(y).
   */
  lemma CandidatesSolveQuadratic(l: Line, mx: real, my: real, r: real, sqrt: real -> real)
    requires WellPosed(l) && IsSquareRoot(sqrt)
    ensures var f := ImplicitOf(l);
            var q := QuadraticOf(f, mx, my, r);
            forall p :: p in Candidates(l, mx, my, r, sqrt) ==>
              if Abs(f.cb) >= EPS
              then f.cb != 0.0 && Eval(q, p.x) == 0.0 && p.y == Fx(p.x, f.ca, f.cb, f.cc)
              else f.ca != 0.0 && Eval(q, p.y) == 0.0 && p.x == Fy(p.y, f.ca, f.cb, f.cc)
  {
    var f := ImplicitOf(l);
    var q := QuadraticOf(f, mx, my, r);
    QuadraticSolvable(f, mx, my, r);
    RootsSolveQuadratic(f, q, sqrt);
  }

  /** Over exact reals every candidate lies on the line and on the circle. */
  lemma CandidatesOnLineAndCircle(l: Line, mx: real, my: real, r: real, sqrt: real -> real)
    requires WellPosed(l) && IsSquareRoot(sqrt)
    ensures forall p :: p in Candidates(l, mx, my, r, sqrt) ==> OnLine(p, l) && OnCircle(p, mx, my, r)
  {
    var f := ImplicitOf(l);
    var q := QuadraticOf(f, mx, my, r);
    QuadraticSolvable(f, mx, my, r);
    RootsSolveQuadratic(f, q, sqrt);
    forall p | p in Roots(f, q, sqrt)
      ensures OnLine(p, l) && OnCircle(p, mx, my, r)
    {
      var t := if q.solveX then p.x else p.y;
      RootOnLineAndCircle(f, mx, my, r, t);
    }
  }

  /** Every point returned, in either mode, lies on the line and on the circle. */
  lemma IntersectionsOnLineAndCircle(l: Line, mx: real, my: real, r: real, segment: bool, sqrt: real -> real)
    requires WellPosed(l) && IsSquareRoot(sqrt)
    ensures forall p :: p in Intersections(l, mx, my, r, segment, sqrt) ==>
              OnLine(p, l) && OnCircle(p, mx, my, r)
  {
    IntersectionsSorted(l, mx, my, r, segment, sqrt);
    CandidatesOnLineAndCircle(l, mx, my, r, sqrt);
  }

  // ---------------------------------------------------------------------------
  // Completeness: no point of the line and the circle is missed

  /** At a zero t of a*t*t + b*t + c with a != 0, the discriminant is the square of u = 2at + b. */
  lemma DiscriminantAtZero(a: real, b: real, c: real, t: real, u: real)
    requires a != 0.0 && a * t * t + b * t + c == 0.0 && u == 2.0 * a * t + b
    ensures b * b - 4.0 * a * c == u * u
  {
    assert u * u == 4.0 * a * (a * t * t + b * t) + b * b;
  }

  /** u = 2at + b solved for t. */
  lemma SolveLinear(a: real, b: real, t: real, u: real)
    requires a != 0.0 && u == 2.0 * a * t + b
    ensures t == (-b + u) / (2.0 * a)
  {
  }

  /** A point of a line with cb != 0 is the point fx recovers from its x. */
  lemma OnLineIsFx(f: Implicit, p: Point)
    requires f.cb != 0.0 && OnImplicit(p, f)
    ensures p.y == Fx(p.x, f.ca, f.cb, f.cc)
  {
    var y := Fx(p.x, f.ca, f.cb, f.cc);
    ZeroFactor(f.cb, p.y - y, f.cb * (p.y - y));
  }

  /** A point of a line with ca != 0 is the point fy recovers from its y. */
  lemma OnLineIsFy(f: Implicit, p: Point)
    requires f.ca != 0.0 && OnImplicit(p, f)
    ensures p.x == Fy(p.y, f.ca, f.cb, f.cc)
  {
    var x := Fy(p.y, f.ca, f.cb, f.cc);
    ZeroFactor(f.ca, p.x - x, f.ca * (p.x - x));
  }

  /** A point on the line and the circle has its x as a zero of the x-quadratic. */
  lemma MeetingPointSolvesX(f: Implicit, mx: real, my: real, r: real, x: real, y: real)
    requires Abs(f.cb) >= EPS && OnImplicit(Point(x, y), f) && Residual(Point(x, y), mx, my, r) == 0.0
    ensures Eval(QuadraticOf(f, mx, my, r), x) == 0.0
  {
    EliminationX(f, mx, my, r, x, y);
    EvalX(f, mx, my, r, x);
    ScaledZero(f.cb, Residual(Point(x, y), mx, my, r), Eval(QuadraticOf(f, mx, my, r), x));
  }

  /** A point on the line and the circle has its y as a zero of the y-quadratic. */
  lemma MeetingPointSolvesY(f: Implicit, mx: real, my: real, r: real, x: real, y: real)
    requires Abs(f.cb) < EPS && OnImplicit(Point(x, y), f) && Residual(Point(x, y), mx, my, r) == 0.0
    ensures Eval(QuadraticOf(f, mx, my, r), y) == 0.0
  {
    EliminationY(f, mx, my, r, x, y);
    EvalY(f, mx, my, r, y);
    ScaledZero(f.ca, Residual(Point(x, y), mx, my, r), Eval(QuadraticOf(f, mx, my, r), y));
  }

  /**
   * A point on the line and the circle is Root(f, q, t) for a zero t of the
   * quadratic of the branch the tolerance selects.
   */
  lemma MeetingPointIsRoot(f: Implicit, mx: real, my: real, r: real, p: Point)
    requires NonDegenerate(f) && OnImplicit(p, f) && OnCircle(p, mx, my, r)
    ensures Solvable(f, QuadraticOf(f, mx, my, r))
    ensures var q := QuadraticOf(f, mx, my, r);
            var t := if q.solveX then p.x else p.y;
            Eval(q, t) == 0.0 && p == Root(f, q, t)
  {
    QuadraticSolvable(f, mx, my, r);
    if Abs(f.cb) >= EPS {
      MeetingPointSolvesX(f, mx, my, r, p.x, p.y);
      OnLineIsFx(f, p);
    } else {
      MeetingPointSolvesY(f, mx, my, r, p.x, p.y);
      OnLineIsFy(f, p);
    }
  }

  /** A zero of the quadratic leaves the discriminant non-negative. */
  lemma ZeroDiscriminantNonNegative(q: Quadratic, t: real)
    requires q.a != 0.0 && Eval(q, t) == 0.0
    ensures Discriminant(q) >= 0.0
  {
    var u := 2.0 * q.a * t + q.b;
    DiscriminantAtZero(q.a, q.b, q.c, t, u);
    SquareNonNegative(u);
  }

  /** With a true square root, every zero of the quadratic is one of the roots the source computes. */
  lemma ZeroAmongRoots(f: Implicit, q: Quadratic, sqrt: real -> real, t: real)
    requires Solvable(f, q) && IsSquareRoot(sqrt) && Eval(q, t) == 0.0
    ensures Root(f, q, t) in Roots(f, q, sqrt)
  {
    var u := 2.0 * q.a * t + q.b;
    DiscriminantAtZero(q.a, q.b, q.c, t, u);
    SolveLinear(q.a, q.b, t, u);
    if Discriminant(q) == 0.0 {
      ZeroAtTangent(f, q, sqrt, t, u);
    } else {
      ZeroAtSecant(f, q, sqrt, t, u);
    }
  }

  /** With a zero discriminant, u = 2at + b vanishes and t is the tangent root -b/2a. */
  lemma ZeroAtTangent(f: Implicit, q: Quadratic, sqrt: real -> real, t: real, u: real)
    requires Solvable(f, q) && Discriminant(q) == 0.0
    requires Discriminant(q) == u * u && t == (-q.b + u) / (2.0 * q.a)
    ensures Root(f, q, t) in Roots(f, q, sqrt)
  {
    if u != 0.0 {
      SquarePositive(u);
    }
    assert t == -q.b / (2.0 * q.a);
    RootsTangent(f, q, sqrt);
  }

  /** With a positive discriminant, sqrt(d) = |u| and t is the + root or the - root as u >= 0 or not. */
  lemma ZeroAtSecant(f: Implicit, q: Quadratic, sqrt: real -> real, t: real, u: real)
    requires Solvable(f, q) && IsSquareRoot(sqrt) && Discriminant(q) != 0.0
    requires Discriminant(q) == u * u && t == (-q.b + u) / (2.0 * q.a)
    ensures Root(f, q, t) in Roots(f, q, sqrt)
  {
    SquareNonNegative(u);
    var w := Abs(u);
    SquareRootUnique(sqrt, Discriminant(q), w);
    RootsSecant(f, q, sqrt);
    if u >= 0.0 {
      assert t == (-q.b + sqrt(Discriminant(q))) / (2.0 * q.a);
    } else {
      assert -q.b + u == -q.b - sqrt(Discriminant(q));
      assert t == (-q.b - sqrt(Discriminant(q))) / (2.0 * q.a);
    }
  }

  /** Over exact reals every point on the line and on the circle is a candidate. */
  lemma CandidatesComplete(l: Line, mx: real, my: real, r: real, sqrt: real -> real, p: Point)
    requires WellPosed(l) && IsSquareRoot(sqrt)
    requires OnLine(p, l) && OnCircle(p, mx, my, r)
    ensures p in Candidates(l, mx, my, r, sqrt)
  {
    var f := ImplicitOf(l);
    var q := QuadraticOf(f, mx, my, r);
    MeetingPointIsRoot(f, mx, my, r, p);
    ZeroAmongRoots(f, q, sqrt, if q.solveX then p.x else p.y);
  }

  /**
   * The converse of `IntersectionsOnLineAndCircle`: every point on the line
   * and on the circle is returned in line mode, and in segment mode when it
   * passes the containment test.
   */
  lemma IntersectionsComplete(l: Line, mx: real, my: real, r: real, sqrt: real -> real, p: Point)
    requires WellPosed(l) && IsSquareRoot(sqrt)
    requires OnLine(p, l) && OnCircle(p, mx, my, r)
    ensures p in Intersections(l, mx, my, r, false, sqrt)
    ensures OnSegment(p, l, sqrt) ==> p in Intersections(l, mx, my, r, true, sqrt)
  {
    var cands := Candidates(l, mx, my, r, sqrt);
    CandidatesComplete(l, mx, my, r, sqrt, p);
    SortByXSorted(cands);
    SortByXSorted(Filter(cands, KeepOnSegment(l, sqrt)));
  }

  /** The same for every point at once, in the mode `segment` selects. */
  lemma IntersectionsCompleteAll(l: Line, mx: real, my: real, r: real, segment: bool, sqrt: real -> real)
    requires WellPosed(l) && IsSquareRoot(sqrt)
    ensures forall p :: OnLine(p, l) && OnCircle(p, mx, my, r) && (!segment || OnSegment(p, l, sqrt)) ==>
              p in Intersections(l, mx, my, r, segment, sqrt)
  {
    forall p | OnLine(p, l) && OnCircle(p, mx, my, r) && (!segment || OnSegment(p, l, sqrt))
      ensures p in Intersections(l, mx, my, r, segment, sqrt)
    {
      IntersectionsComplete(l, mx, my, r, sqrt, p);
    }
  }

  /** A negative discriminant means the line really misses the circle. */
  lemma NegativeDiscriminantMisses(l: Line, mx: real, my: real, r: real, p: Point)
    requires WellPosed(l)
    ensures LineDiscriminant(l, mx, my, r) < 0.0 ==> !(OnLine(p, l) && OnCircle(p, mx, my, r))
  {
    if OnLine(p, l) && OnCircle(p, mx, my, r) {
      var f := ImplicitOf(l);
      var q := QuadraticOf(f, mx, my, r);
      MeetingPointIsRoot(f, mx, my, r, p);
      ZeroDiscriminantNonNegative(q, if q.solveX then p.x else p.y);
    }
  }

  // ---------------------------------------------------------------------------
  // The containment test accepts the segment and rejects its extension

  /** The point p1 + t*(p2 - p1) satisfies the implicit equation of the line through p1 and p2. */
  lemma InterpolatedOnLine(x1: real, y1: real, x2: real, y2: real, t: real, x: real, y: real)
    requires x == x1 + t * (x2 - x1) && y == y1 + t * (y2 - y1)
    ensures (y2 - y1) * x + (x1 - x2) * y + (x2 * y1 - x1 * y2) == 0.0
  {
    assert (y2 - y1) * x == (y2 - y1) * x1 + t * ((y2 - y1) * (x2 - x1));
    assert (x1 - x2) * y == (x1 - x2) * y1 - t * ((y2 - y1) * (x2 - x1));
  }

  /**
   * The distance from (px, py) to (qx, qy) is |k| times the distance from
   * (x1, y1) to (x2, y2) when the first difference is k times the second.
   */
  lemma ScaledSegment(sqrt: real -> real, k: real, px: real, py: real, qx: real, qy: real,
                      x1: real, y1: real, x2: real, y2: real)
    requires IsSquareRoot(sqrt)
    requires qx - px == k * (x2 - x1) && qy - py == k * (y2 - y1)
    ensures sqrt((qx - px) * (qx - px) + (qy - py) * (qy - py)) ==
            Abs(k) * sqrt((x2 - x1) * (x2 - x1) + (y2 - y1) * (y2 - y1))
  {
    assert sqrt((x2 - x1) * (x2 - x1) + (y2 - y1) * (y2 - y1)) == sqrt(Square(x2 - x1) + Square(y2 - y1));
    assert sqrt((qx - px) * (qx - px) + (qy - py) * (qy - py)) == sqrt(Square(qx - px) + Square(qy - py));
    ScaledDistance(sqrt, k, x2 - x1, y2 - y1, qx - px, qy - py);
  }

  /** The distance of p1 + t*(p2 - p1) from p1 is |t| times the distance between p1 and p2. */
  lemma DistanceFromStart(x1: real, y1: real, x2: real, y2: real, t: real, x: real, y: real, sqrt: real -> real)
    requires IsSquareRoot(sqrt)
    requires x == x1 + t * (x2 - x1) && y == y1 + t * (y2 - y1)
    ensures sqrt((x - x1) * (x - x1) + (y - y1) * (y - y1)) ==
            Abs(t) * sqrt((x2 - x1) * (x2 - x1) + (y2 - y1) * (y2 - y1))
  {
    ScaledSegment(sqrt, t, x1, y1, x, y, x1, y1, x2, y2);
  }

  /** The distance of p1 + t*(p2 - p1) from p2 is |1 - t| times the distance between p1 and p2. */
  lemma DistanceToEnd(x1: real, y1: real, x2: real, y2: real, t: real, x: real, y: real, sqrt: real -> real)
    requires IsSquareRoot(sqrt)
    requires x == x1 + t * (x2 - x1) && y == y1 + t * (y2 - y1)
    ensures sqrt((x2 - x) * (x2 - x) + (y2 - y) * (y2 - y)) ==
            Abs(1.0 - t) * sqrt((x2 - x1) * (x2 - x1) + (y2 - y1) * (y2 - y1))
  {
    ScaledSegment(sqrt, 1.0 - t, x, y, x2, y2, x1, y1, x2, y2);
  }

  /** How far beyond [0, 1] the parameter t lies. */
  function Beyond(t: real): (b: real)
    ensures b > 0.0 <==> t < 0.0 || t > 1.0
  {
    if t < 0.0 then -t else t - 1.0
  }

  /** Distances t and 1 - t times the length add up to the length. */
  lemma DistancesAddUp(d1: real, d2: real, d3: real, t: real)
    requires 0.0 <= t <= 1.0
    requires d2 == Abs(t) * d1 && d3 == Abs(1.0 - t) * d1
    ensures Abs(d1 - d2 - d3) < EPS
  {
    assert Abs(t) == t && Abs(1.0 - t) == 1.0 - t;
    assert d1 - d2 - d3 == d1 - t * d1 - (1.0 - t) * d1;
  }

  /**
   * Distances |t| and |1 - t| times the length, with t outside [0, 1], exceed
   * the length by twice the distance beyond the nearer end point.
   */
  lemma DistancesOvershoot(d1: real, d2: real, d3: real, t: real)
    requires t < 0.0 || t > 1.0
    requires 0.0 <= d1
    requires d2 == Abs(t) * d1 && d3 == Abs(1.0 - t) * d1
    ensures Abs(d1 - d2 - d3) == 2.0 * Beyond(t) * d1
  {
    var beyond := Beyond(t);
    ProductNonNegative(beyond, d1, beyond * d1);
    if t < 0.0 {
      assert d1 - d2 - d3 == d1 + t * d1 - (1.0 - t) * d1;
    } else {
      assert d1 - d2 - d3 == d1 - t * d1 - (t - 1.0) * d1;
    }
  }

  /**
   * Every point p1 + t*(p2 - p1) with 0 <= t <= 1 passes `within`: its
   * distances to the end points are t and 1 - t times the length.
   */
  lemma InterpolatedWithin(x1: real, y1: real, x2: real, y2: real, t: real, x: real, y: real, sqrt: real -> real)
    requires IsSquareRoot(sqrt)
    requires 0.0 <= t <= 1.0
    requires x == x1 + t * (x2 - x1) && y == y1 + t * (y2 - y1)
    ensures Within(x, y, x1, y1, x2, y2, sqrt)
  {
    DistanceFromStart(x1, y1, x2, y2, t, x, y, sqrt);
    DistanceToEnd(x1, y1, x2, y2, t, x, y, sqrt);
    var d1 := sqrt((x2 - x1) * (x2 - x1) + (y2 - y1) * (y2 - y1));
    var d2 := sqrt((x - x1) * (x - x1) + (y - y1) * (y - y1));
    var d3 := sqrt((x2 - x) * (x2 - x) + (y2 - y) * (y2 - y));
    DistancesAddUp(d1, d2, d3, t);
  }

  /** `within` fails once the distances overshoot the length by at least EPS. */
  lemma OvershootRejected(x1: real, y1: real, x2: real, y2: real, t: real, x: real, y: real, sqrt: real -> real)
    requires t < 0.0 || t > 1.0
    requires var d1 := sqrt((x2 - x1) * (x2 - x1) + (y2 - y1) * (y2 - y1));
             && 0.0 <= d1
             && sqrt((x - x1) * (x - x1) + (y - y1) * (y - y1)) == Abs(t) * d1
             && sqrt((x2 - x) * (x2 - x) + (y2 - y) * (y2 - y)) == Abs(1.0 - t) * d1
    ensures var len := sqrt((x2 - x1) * (x2 - x1) + (y2 - y1) * (y2 - y1));
            2.0 * Beyond(t) * len >= EPS ==> !Within(x, y, x1, y1, x2, y2, sqrt)
  {
    var d1 := sqrt((x2 - x1) * (x2 - x1) + (y2 - y1) * (y2 - y1));
    var d2 := sqrt((x - x1) * (x - x1) + (y - y1) * (y - y1));
    var d3 := sqrt((x2 - x) * (x2 - x) + (y2 - y) * (y2 - y));
    DistancesOvershoot(d1, d2, d3, t);
  }

  /**
   * A point p1 + t*(p2 - p1) with t < 0 or t > 1 lies on the extension of
   * the segment: its distances miss the length by twice its distance beyond
   * the nearer end point, so `within` rejects it once that is at least EPS.
   */
  lemma InterpolatedOutside(x1: real, y1: real, x2: real, y2: real, t: real, x: real, y: real, sqrt: real -> real)
    requires IsSquareRoot(sqrt)
    requires t < 0.0 || t > 1.0
    requires x == x1 + t * (x2 - x1) && y == y1 + t * (y2 - y1)
    ensures var len := sqrt((x2 - x1) * (x2 - x1) + (y2 - y1) * (y2 - y1));
            2.0 * Beyond(t) * len >= EPS ==> !Within(x, y, x1, y1, x2, y2, sqrt)
  {
    DistanceFromStart(x1, y1, x2, y2, t, x, y, sqrt);
    DistanceToEnd(x1, y1, x2, y2, t, x, y, sqrt);
    SquareNonNegative(x2 - x1);
    SquareNonNegative(y2 - y1);
    OvershootRejected(x1, y1, x2, y2, t, x, y, sqrt);
  }

  /** The point of `l` at parameter t: p1 for t == 0, p2 for t == 1. */
  function PointAt(l: Line, t: real): (p: Point)
    ensures t == 0.0 ==> p == l.p1
    ensures t == 1.0 ==> p == l.p2
  {
    Point(l.p1.x + t * (l.p2.x - l.p1.x), l.p1.y + t * (l.p2.y - l.p1.y))
  }

  /** Every point of the closed segment lies on the line and passes the containment test. */
  lemma SegmentPointsOnSegment(l: Line, t: real, sqrt: real -> real)
    requires IsSquareRoot(sqrt)
    requires 0.0 <= t <= 1.0
    ensures OnLine(PointAt(l, t), l) && OnSegment(PointAt(l, t), l, sqrt)
  {
    var p := PointAt(l, t);
    assert OnLine(p, l) by {
      InterpolatedOnLine(l.p1.x, l.p1.y, l.p2.x, l.p2.y, t, p.x, p.y);
    }
    assert OnSegment(p, l, sqrt) by {
      InterpolatedWithin(l.p1.x, l.p1.y, l.p2.x, l.p2.y, t, p.x, p.y, sqrt);
    }
  }

  /** Segment mode returns every point of the closed segment that lies on the circle. */
  lemma SegmentIntersectionsComplete(l: Line, mx: real, my: real, r: real, sqrt: real -> real, t: real)
    requires WellPosed(l) && IsSquareRoot(sqrt)
    requires 0.0 <= t <= 1.0
    requires OnCircle(PointAt(l, t), mx, my, r)
    ensures PointAt(l, t) in Intersections(l, mx, my, r, true, sqrt)
  {
    SegmentPointsOnSegment(l, t, sqrt);
    IntersectionsComplete(l, mx, my, r, sqrt, PointAt(l, t));
  }

  /** Segment mode returns only points that pass the containment test. */
  lemma SegmentResultsWithin(l: Line, mx: real, my: real, r: real, sqrt: real -> real, p: Point)
    requires WellPosed(l)
    requires p in Intersections(l, mx, my, r, true, sqrt)
    ensures OnSegment(p, l, sqrt)
  {
    SortByXSorted(Filter(Candidates(l, mx, my, r, sqrt), KeepOnSegment(l, sqrt)));
  }

  /**
   * Segment mode rejects a point on the line's extension at parameter t < 0
   * or t > 1 once twice its distance beyond the nearer end point is at least EPS.
   */
  lemma ExtensionPointsRejected(l: Line, mx: real, my: real, r: real, sqrt: real -> real, t: real)
    requires WellPosed(l) && IsSquareRoot(sqrt)
    requires t < 0.0 || t > 1.0
    ensures var len := sqrt((l.p2.x - l.p1.x) * (l.p2.x - l.p1.x) + (l.p2.y - l.p1.y) * (l.p2.y - l.p1.y));
            2.0 * Beyond(t) * len >= EPS ==> PointAt(l, t) !in Intersections(l, mx, my, r, true, sqrt)
  {
    var p := PointAt(l, t);
    InterpolatedOutside(l.p1.x, l.p1.y, l.p2.x, l.p2.y, t, p.x, p.y, sqrt);
    if p in Intersections(l, mx, my, r, true, sqrt) {
      SegmentResultsWithin(l, mx, my, r, sqrt, p);
    }
  }

  // ---------------------------------------------------------------------------
  // The direction of the line does not matter

  /** The containment test does not depend on the order of the segment's end points. */
  lemma WithinSymmetric(x: real, y: real, x1: real, y1: real, x2: real, y2: real, sqrt: real -> real)
    ensures Within(x, y, x1, y1, x2, y2, sqrt) == Within(x, y, x2, y2, x1, y1, sqrt)
  {
    NegatedProduct(x2 - x1, x2 - x1, x1 - x2, x1 - x2);
    NegatedProduct(y2 - y1, y2 - y1, y1 - y2, y1 - y2);
    NegatedProduct(x - x1, x - x1, x1 - x, x1 - x);
    NegatedProduct(y - y1, y - y1, y1 - y, y1 - y);
    NegatedProduct(x2 - x, x2 - x, x - x2, x - x2);
    NegatedProduct(y2 - y, y2 - y, y - y2, y - y2);
  }

  /** Negating all three coefficients leaves the quadratic unchanged. */
  lemma QuadraticOfNegated(f: Implicit, mx: real, my: real, r: real)
    ensures QuadraticOf(Implicit(-f.ca, -f.cb, -f.cc), mx, my, r) == QuadraticOf(f, mx, my, r)
  {
    var g := Implicit(-f.ca, -f.cb, -f.cc);
    NegatedProduct(f.ca, f.ca, g.ca, g.ca);
    NegatedProduct(f.cb, f.cb, g.cb, g.cb);
    NegatedProduct(f.cc, f.cc, g.cc, g.cc);
    NegatedProduct(f.ca, f.cb, g.ca, g.cb);
    NegatedProduct(f.ca, f.cc, g.ca, g.cc);
    NegatedProduct(f.cb, f.cc, g.cb, g.cc);
    assert Leading(g) == Leading(f);
  }

  /** Negating all three coefficients leaves the point recovered through fx or fy unchanged. */
  lemma RootNegated(f: Implicit, q: Quadratic, t: real)
    requires Solvable(f, q)
    ensures var g := Implicit(-f.ca, -f.cb, -f.cc);
            Solvable(g, q) && Root(g, q, t) == Root(f, q, t)
  {
    var g := Implicit(-f.ca, -f.cb, -f.cc);
    if q.solveX {
      assert -(g.ca * t + g.cc) == f.ca * t + f.cc;
      assert Fx(t, g.ca, g.cb, g.cc) == Fx(t, f.ca, f.cb, f.cc);
    } else {
      assert -(g.cb * t + g.cc) == f.cb * t + f.cc;
      assert Fy(t, g.ca, g.cb, g.cc) == Fy(t, f.ca, f.cb, f.cc);
    }
  }

  /** Negating all three coefficients leaves the candidate points unchanged. */
  lemma RootsNegated(f: Implicit, q: Quadratic, sqrt: real -> real)
    requires Solvable(f, q)
    ensures var g := Implicit(-f.ca, -f.cb, -f.cc);
            Solvable(g, q) && Roots(g, q, sqrt) == Roots(f, q, sqrt)
  {
    var d := Discriminant(q);
    RootNegated(f, q, -q.b / (2.0 * q.a));
    RootNegated(f, q, (-q.b + sqrt(d)) / (2.0 * q.a));
    RootNegated(f, q, (-q.b - sqrt(d)) / (2.0 * q.a));
  }

  /**
   * Swapping the end points of the line changes nothing, in either mode:
   * the implicit coefficients all change sign, which leaves the quadratic,
   * the recovered coordinates and the containment test as they were.
   */
  lemma ReversedLineSameIntersections(l: Line, mx: real, my: real, r: real, segment: bool, sqrt: real -> real)
    requires WellPosed(l)
    ensures WellPosed(Line(l.p2, l.p1))
    ensures Intersections(Line(l.p2, l.p1), mx, my, r, segment, sqrt) == Intersections(l, mx, my, r, segment, sqrt)
  {
    var rev := Line(l.p2, l.p1);
    var f := ImplicitOf(l);
    assert ImplicitOf(rev) == Implicit(-f.ca, -f.cb, -f.cc);
    QuadraticSolvable(f, mx, my, r);
    QuadraticOfNegated(f, mx, my, r);
    RootsNegated(f, QuadraticOf(f, mx, my, r), sqrt);
    assert Candidates(rev, mx, my, r, sqrt) == Candidates(l, mx, my, r, sqrt);
    forall p
      ensures KeepOnSegment(rev, sqrt)(p) == KeepOnSegment(l, sqrt)(p)
    {
      WithinSymmetric(p.x, p.y, l.p1.x, l.p1.y, l.p2.x, l.p2.y, sqrt);
    }
    FilterCongruent(Candidates(l, mx, my, r, sqrt), KeepOnSegment(rev, sqrt), KeepOnSegment(l, sqrt));
  }

  /** The implicit equation holds at both end points, and is trivial only when they coincide. */
  lemma ImplicitThroughEndpoints(l: Line)
    ensures OnLine(l.p1, l) && OnLine(l.p2, l)
    ensures var f := ImplicitOf(l); (f.ca == 0.0 && f.cb == 0.0) <==> l.p1 == l.p2
  {
  }
}
