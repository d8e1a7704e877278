/**
 * Facts about products of reals that the geometry proofs rely on, stated
 * with the product as a separate argument so that each use is a plain
 * equality to check.
 */
module Arith {

  function Square(v: real): real
  {
    v * v
  }

  /** A product of two factors of the same strict sign is positive. */
  lemma ProductPositive(x: real, y: real, z: real)
    requires (x > 0.0 && y > 0.0) || (x < 0.0 && y < 0.0)
    requires z == x * y
    ensures z > 0.0
  {
  }

  /** A zero product with a non-zero factor has its other factor zero. */
  lemma ZeroFactor(x: real, y: real, z: real)
    requires x != 0.0 && z == x * y && z == 0.0
    ensures y == 0.0
  {
  }

  lemma SquarePositive(v: real)
    requires v != 0.0
    ensures Square(v) > 0.0
  {
    ProductPositive(v, v, Square(v));
  }

  lemma SquareNonNegative(v: real)
    ensures Square(v) >= 0.0
  {
    if v != 0.0 {
      SquarePositive(v);
    }
  }

  /** k*k*e == 0 with k != 0 forces e == 0. */
  lemma CancelSquare(k: real, e: real, z: real)
    requires k != 0.0 && z == k * k * e && z == 0.0
    ensures e == 0.0
  {
    ZeroFactor(k, k * e, z);
    ZeroFactor(k, e, k * e);
  }

  /** k*k*e is zero when e is. */
  lemma ScaledZero(k: real, e: real, z: real)
    requires e == 0.0 && z == k * k * e
    ensures z == 0.0
  {
  }

  /** A product of two non-negative factors is non-negative. */
  lemma ProductNonNegative(x: real, y: real, z: real)
    requires x >= 0.0 && y >= 0.0 && z == x * y
    ensures z >= 0.0
  {
    if x > 0.0 && y > 0.0 {
      ProductPositive(x, y, z);
    }
  }

  /** Scaling a vector (dx, dy) by k scales its squared length by k*k. */
  lemma ScaledSquares(k: real, dx: real, dy: real, u: real, v: real)
    requires u == k * dx && v == k * dy
    ensures u * u + v * v == k * k * (dx * dx + dy * dy)
  {
    assert u * u == k * k * (dx * dx);
    assert v * v == k * k * (dy * dy);
  }

  /** Negating both factors leaves a product unchanged. */
  lemma NegatedProduct(u: real, v: real, u': real, v': real)
    requires u' == -u && v' == -v
    ensures u' * v' == u * v
  {
  }
}
