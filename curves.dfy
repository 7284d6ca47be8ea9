/** The circular-arc curve factories (src/curves.ts). Each factory returns
    a closure over R and d; the model writes the closure applied to its
    argument as a function of (R, d, x). `Math.sqrt` is a foreign call and
    is passed in as `sqrt`, assumed to return the non-negative square root
    of a non-negative argument; what it returns for a negative argument (NaN
    in the source) is left unconstrained. */
module Curves {
  import opened Numeric

  /** sqrt is the non-negative square root on non-negative reals. */
  ghost predicate IsSquareRoot(sqrt: real -> real) {
    forall x :: 0.0 <= x ==> 0.0 <= sqrt(x) && sqrt(x) * sqrt(x) == x
  }

  lemma ProductOfPositives(p: real, q: real)
    requires 0.0 < p && 0.0 < q
    ensures 0.0 < p * q
  {
  }

  /** Squaring preserves the order of non-negative numbers. */
  lemma SquaresOrder(p: real, q: real)
    requires 0.0 <= p && 0.0 <= q
    ensures p < q <==> p * p < q * q
  {
    if p < q {
      ProductOfPositives(q - p, q + p);
      assert (q - p) * (q + p) == q * q - p * p;
    } else if q < p {
      ProductOfPositives(p - q, p + q);
      assert (p - q) * (p + q) == p * p - q * q;
    }
  }

  /** The square root of a square of a non-negative number is that number. */
  lemma SqrtOfSquare(sqrt: real -> real, a: real)
    requires IsSquareRoot(sqrt)
    requires 0.0 <= a
    ensures sqrt(a * a) == a
  {
    var s := sqrt(a * a);
    assert 0.0 <= a * a;
    assert 0.0 <= s && s * s == a * a;
    SquaresOrder(s, a);
    SquaresOrder(a, s);
  }

  /** Within the radius, the radicand of the arc is not negative. */
  lemma SquareWithin(u: real, R: real)
    ensures Abs(u) <= R ==> u * u <= R * R
  {
    if Abs(u) <= R {
      assert (R - Abs(u)) * (R + Abs(u)) >= 0.0;
      assert Abs(u) * Abs(u) == u * u;
    }
  }

  /** A non-negative number whose square is at most R^2 is at most R. */
  lemma RootWithin(s: real, R: real)
    ensures 0.0 <= s && 0.0 <= R && s * s <= R * R ==> s <= R
  {
    if 0.0 <= s && 0.0 <= R {
      SquaresOrder(R, s);
    }
  }

  /** `circularRd(R, d)(x)`: the upper semicircle of radius R centred on
      (d, 0). Where the root is real, the point lies on the circle. */
  function CircularRd(sqrt: real -> real, R: real, d: real, x: real): (r: real)
    requires IsSquareRoot(sqrt)
    ensures Abs(x - d) <= R ==> 0.0 <= r && r * r + (x - d) * (x - d) == R * R
  {
    var u := x - d;
    SquareWithin(u, R);
    sqrt(R * R - u * u)
  }

  /** The arc starts at (d - R, 0), peaks at (d, R) and ends at (d + R, 0). */
  lemma CircularRdLandmarks(sqrt: real -> real, R: real, d: real)
    requires IsSquareRoot(sqrt)
    requires 0.0 <= R
    ensures CircularRd(sqrt, R, d, d - R) == 0.0
    ensures CircularRd(sqrt, R, d, d) == R
    ensures CircularRd(sqrt, R, d, d + R) == 0.0
  {
    SqrtOfSquare(sqrt, 0.0);
    SqrtOfSquare(sqrt, R);
    assert (d - R) - d == -R && (d + R) - d == R;
    assert R * R - (-R) * (-R) == 0.0 * 0.0;
    assert R * R - R * R == 0.0 * 0.0;
    assert R * R - (d - d) * (d - d) == R * R;
  }

  /** `circularPrimeRd(R, d)(x)`: the slope of the arc, -(x - d) over the
      arc's height. The source divides by zero at the two ends, where the
      height is zero; the model requires a non-zero height. */
  function CircularPrimeRd(sqrt: real -> real, R: real, d: real, x: real): (r: real)
    requires IsSquareRoot(sqrt)
    requires sqrt(R * R - (x - d) * (x - d)) != 0.0
    ensures Abs(x - d) <= R ==> r * CircularRd(sqrt, R, d, x) == -(x - d)
    ensures Abs(x - d) <= R ==> (x < d <==> r > 0.0) && (x == d <==> r == 0.0) && (x > d <==> r < 0.0)
  {
    -(x - d) / sqrt(R * R - (x - d) * (x - d))
  }

  /** `circularInverseRd(R, d)(y)`: R - sqrt(R^2 - y^2). It never uses d;
      for |y| <= R its value lies in [0, R]. */
  function CircularInverseRd(sqrt: real -> real, R: real, d: real, y: real): (r: real)
    requires IsSquareRoot(sqrt)
    ensures Abs(y) <= R ==> 0.0 <= r <= R
  {
    var s := sqrt(R * R - y * y);
    SquareWithin(y, R);
    RootWithin(s, R);
    R - s
  }

  /** The inverse does not depend on the offset d. */
  lemma CircularInverseIgnoresOffset(sqrt: real -> real, R: real, d: real, e: real, y: real)
    requires IsSquareRoot(sqrt)
    ensures CircularInverseRd(sqrt, R, d, y) == CircularInverseRd(sqrt, R, e, y)
  {
  }

  /** The inverse maps 0 to 0 and R to R. */
  lemma CircularInverseLandmarks(sqrt: real -> real, R: real, d: real)
    requires IsSquareRoot(sqrt)
    requires 0.0 <= R
    ensures CircularInverseRd(sqrt, R, d, 0.0) == 0.0
    ensures CircularInverseRd(sqrt, R, d, R) == R
  {
    SqrtOfSquare(sqrt, R);
    SqrtOfSquare(sqrt, 0.0);
    assert R * R - 0.0 * 0.0 == R * R;
    assert R * R - R * R == 0.0 * 0.0;
  }

  /** With the centre at d = R, the arc over [0, R] is the left face of the
      lens, and the inverse undoes it there. */
  lemma CircularInverseOnLeftFace(sqrt: real -> real, R: real, x: real)
    requires IsSquareRoot(sqrt)
    requires 0.0 <= x <= R
    ensures CircularInverseRd(sqrt, R, R, CircularRd(sqrt, R, R, x)) == x
  {
    var y := CircularRd(sqrt, R, R, x);
    assert Abs(x - R) <= R;
    assert y * y + (x - R) * (x - R) == R * R;
    var w := R - x;
    assert R * R - y * y == w * w;
    SqrtOfSquare(sqrt, w);
    assert sqrt(R * R - y * y) == w;
    assert CircularInverseRd(sqrt, R, R, y) == R - sqrt(R * R - y * y);
  }

  /** Away from d = R the pairing is not an inverse: the peak (d, R) is
      sent to R rather than back to d. */
  lemma CircularInverseOffApex(sqrt: real -> real, R: real, d: real)
    requires IsSquareRoot(sqrt)
    requires 0.0 <= R && d != R
    ensures CircularInverseRd(sqrt, R, d, CircularRd(sqrt, R, d, d)) != d
  {
    CircularRdLandmarks(sqrt, R, d);
    CircularInverseLandmarks(sqrt, R, d);
  }
}
