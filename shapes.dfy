/**
 * Value types of the slope-stability library: points, boundary segments and
 * soil layers, the library's tolerance, and the square root that the
 * intersection code takes from the floating-point library.
 *
 * Coordinates are exact reals, not f64: rounding is not modelled.
 */
module Shapes {
  import opened Arith

  /** The library-wide tolerance (1e-14), used for branch selection and containment. */
  const EPS: real := 1.0e-14

  /** A point of the cross-section: x is horizontal distance, y is elevation. */
  datatype Point = Point(x: real, y: real)

  /** A directed edge of a layer boundary, from p1 to p2. */
  datatype Line = Line(p1: Point, p2: Point)

  /**
   * A soil layer: dry and saturated unit weight, cohesion, friction angle and
   * the polyline of its boundary.
   */
  datatype Layer = Layer(yDry: real, ySat: real, c: real, phi: real, points: seq<Point>)

  function Abs(v: real): (r: real)
    ensures 0.0 <= r && (r == v || r == -v)
  {
    if v < 0.0 then -v else v
  }

  /**
   * `sqrt` behaves as the square root on the non-negative reals. The
   * floating-point square root is a call into the standard library, so the
   * model receives it as a parameter constrained by this predicate.
   */
  ghost predicate IsSquareRoot(sqrt: real -> real)
  {
    forall v :: 0.0 <= v ==> 0.0 <= sqrt(v) && sqrt(v) * sqrt(v) == v
  }

  /** A square root is determined by its argument: any non-negative w with w*w == v is sqrt(v). */
  lemma SquareRootUnique(sqrt: real -> real, v: real, w: real)
    requires IsSquareRoot(sqrt)
    requires 0.0 <= w && w * w == v
    ensures sqrt(v) == w
  {
    var s := sqrt(v);
    assert 0.0 <= s && s * s == v;
    if s + w == 0.0 {
      assert s == 0.0 && w == 0.0;
    } else {
      ZeroFactor(s + w, s - w, (s + w) * (s - w));
    }
  }

  /** The square root of k*k*v is |k| times the square root of v. */
  lemma SquareRootScaled(sqrt: real -> real, k: real, v: real)
    requires IsSquareRoot(sqrt)
    requires 0.0 <= v
    ensures sqrt(k * k * v) == Abs(k) * sqrt(v)
  {
    var w := Abs(k) * sqrt(v);
    ProductNonNegative(Abs(k), sqrt(v), w);
    assert Abs(k) * Abs(k) == k * k;
    assert w * w == (Abs(k) * Abs(k)) * (sqrt(v) * sqrt(v));
    SquareRootUnique(sqrt, k * k * v, w);
  }

  /** Scaling a vector (dx, dy) by k scales its length by |k|. */
  lemma ScaledDistance(sqrt: real -> real, k: real, dx: real, dy: real, u: real, v: real)
    requires IsSquareRoot(sqrt)
    requires u == k * dx && v == k * dy
    ensures sqrt(Square(u) + Square(v)) == Abs(k) * sqrt(Square(dx) + Square(dy))
  {
    var len := Square(dx) + Square(dy);
    ScaledSquares(k, dx, dy, u, v);
    assert Square(u) + Square(v) == k * k * len;
    SquareNonNegative(dx);
    SquareNonNegative(dy);
    SquareRootScaled(sqrt, k, len);
    assert sqrt(Square(u) + Square(v)) == sqrt(k * k * len);
  }
}
