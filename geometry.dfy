/**
 * Planar geometry on positions: XY distance, the lateral/projection decomposition of a
 * point against a directed line, the inverse mapping from a projection back to a point,
 * and the degree-angle helpers used to orient a pair of codes.
 *
 * Python's `math.sqrt` is a parameter `sqrt`; every lemma that needs it to be the real
 * square root says so with `IsSqrt(sqrt)`.
 */
module Geometry {
  import opened Wrappers

  /** A position (x, y, z); only x and y take part in the planar computations. */
  datatype Point = Point(x: real, y: real, z: real)

  type SqrtFn = real -> real

  /** `sys.float_info.max`, where the searches for a nearest row and a closest pair start. */
  const FloatMax: real := 179769313486231570814527423731704356798070567525844996598917476803157260780028538760589558632766878171540458953514382464234321326889464182768467546703537516986049910576551282076245490090389328944075868508455133942304583236903222948165808559332123348274797826204144723168738177180919299881250404026184124858368.0

  ghost predicate IsSqrt(sqrt: SqrtFn) {
    forall v: real {:trigger sqrt(v)} :: 0.0 <= v ==> 0.0 <= sqrt(v) && sqrt(v) * sqrt(v) == v
  }

  function Abs(v: real): (r: real)
    ensures r >= 0.0 && (r == v || r == -v)
  {
    if v < 0.0 then -v else v
  }

  // Arithmetic facts the solver does not find unaided. Each one states its result about a
  // variable that the caller passes in, so that the fact survives the solver's rewriting.

  lemma PosMul(a: real, b: real, p: real)
    requires a > 0.0 && b > 0.0 && p == a * b
    ensures p > 0.0
  {
  }

  lemma NonZeroMul(a: real, b: real, p: real)
    requires a != 0.0 && b != 0.0 && p == a * b
    ensures p != 0.0
  {
    if a > 0.0 && b > 0.0 { PosMul(a, b, p); }
    else if a < 0.0 && b < 0.0 { PosMul(-a, -b, p); }
    else if a > 0.0 { PosMul(a, -b, -p); }
    else { PosMul(-a, b, -p); }
  }

  lemma SquareNonNeg(a: real, p: real)
    requires p == a * a
    ensures p >= 0.0
  {
    if a > 0.0 { PosMul(a, a, p); } else if a < 0.0 { PosMul(-a, -a, p); }
  }

  lemma SquarePos(a: real, p: real)
    requires a != 0.0 && p == a * a
    ensures p > 0.0
  {
    if a > 0.0 { PosMul(a, a, p); } else { PosMul(-a, -a, p); }
  }

  lemma CancelMul(a: real, b: real, c: real, p: real, q: real)
    requires c != 0.0 && p == a * c && q == b * c && p == q
    ensures a == b
  {
    if a != b { NonZeroMul(a - b, c, p - q); }
  }

  lemma SquareStrict(t: real, s: real, tt: real, ss: real)
    requires 0.0 <= t < s && tt == t * t && ss == s * s
    ensures tt < ss
  {
    PosMul(s - t, s + t, ss - tt);
  }

  lemma MulNonNeg(a: real, b: real, p: real)
    requires a >= 0.0 && b >= 0.0 && p == a * b
    ensures p >= 0.0
  {
    if a > 0.0 && b > 0.0 { PosMul(a, b, p); }
  }

  lemma MulLe(a: real, b: real, c: real, pa: real, pb: real)
    requires a <= b && c > 0.0 && pa == a * c && pb == b * c
    ensures pa <= pb
  {
    if a < b { PosMul(b - a, c, pb - pa); }
  }

  lemma MulLt(a: real, b: real, c: real, pa: real, pb: real)
    requires a < b && c > 0.0 && pa == a * c && pb == b * c
    ensures pa < pb
  {
    PosMul(b - a, c, pb - pa);
  }

  /** Dividing out a positive factor keeps the order. */
  lemma MulLeInverse(a: real, b: real, c: real, pa: real, pb: real)
    requires c > 0.0 && pa == a * c && pb == b * c && pa <= pb
    ensures a <= b
  {
    MulNonNegInverse(b - a, c, pb - pa);
  }

  lemma MulNonNegInverse(d: real, c: real, p: real)
    requires c > 0.0 && p == d * c && p >= 0.0
    ensures d >= 0.0
  {
  }

  lemma MulLtInverse(a: real, b: real, c: real, pa: real, pb: real)
    requires c > 0.0 && pa == a * c && pb == b * c && pa < pb
    ensures a < b
  {
    MulPosInverse(b - a, c, pb - pa);
  }

  lemma MulEqInverse(a: real, b: real, c: real, pa: real, pb: real)
    requires c > 0.0 && pa == a * c && pb == b * c && pa == pb
    ensures a == b
  {
  }

  /** A linear ramp from 0 to `y` over [0, `w`] stays in [0, `y`]. */
  lemma RampBounds(e: real, w: real, y: real)
    requires 0.0 <= e <= w && w > 0.0 && y >= 0.0
    ensures 0.0 <= (y / w) * e <= y
  {
    var slope := y / w;
    assert slope * w == y;
    if y > 0.0 {
      MulPosInverse(slope, w, slope * w);
      MulNonNeg(slope, e, slope * e);
      MulLe(e, w, slope, e * slope, w * slope);
    }
  }

  lemma MulPosInverse(d: real, c: real, p: real)
    requires c > 0.0 && p == d * c && p > 0.0
    ensures d > 0.0
  {
  }

  lemma SqrtOfSquare(sqrt: SqrtFn, v: real, s: real)
    requires IsSqrt(sqrt) && 0.0 <= s && s * s == v
    ensures sqrt(v) == s
  {
    var t := sqrt(v);
    assert 0.0 <= t && t * t == v;
    if t < s {
      SquareStrict(t, s, v, v);
    } else if t > s {
      SquareStrict(s, t, v, v);
    }
  }

  lemma SqrtZero(sqrt: SqrtFn)
    requires IsSqrt(sqrt)
    ensures sqrt(0.0) == 0.0
  {
    SqrtOfSquare(sqrt, 0.0, 0.0);
  }

  lemma SqrtPos(sqrt: SqrtFn, v: real)
    requires IsSqrt(sqrt) && v > 0.0
    ensures sqrt(v) > 0.0
  {
    var t := sqrt(v);
    assert t >= 0.0 && t * t == v;
  }

  function SquaredXY(dx: real, dy: real): (r: real)
    ensures r >= 0.0
  {
    SquareNonNeg(dx, dx * dx);
    SquareNonNeg(dy, dy * dy);
    dx * dx + dy * dy
  }

  lemma SquaredXYPos(dx: real, dy: real)
    requires dx != 0.0 || dy != 0.0
    ensures SquaredXY(dx, dy) > 0.0
  {
    SquareNonNeg(dx, dx * dx);
    SquareNonNeg(dy, dy * dy);
    if dx != 0.0 { SquarePos(dx, dx * dx); } else { SquarePos(dy, dy * dy); }
  }

  /** `position_difference`: the XY distance between two positions. */
  function PositionDifference(p1: Point, p2: Point, sqrt: SqrtFn): (r: real)
    ensures IsSqrt(sqrt) ==> r >= 0.0
  {
    sqrt(SquaredXY(p1.x - p2.x, p1.y - p2.y))
  }

  lemma PositionDifferenceSymmetric(p1: Point, p2: Point, sqrt: SqrtFn)
    ensures PositionDifference(p1, p2, sqrt) == PositionDifference(p2, p1, sqrt)
  {
    assert (p1.x - p2.x) * (p1.x - p2.x) == (p2.x - p1.x) * (p2.x - p1.x);
    assert (p1.y - p2.y) * (p1.y - p2.y) == (p2.y - p1.y) * (p2.y - p1.y);
  }

  lemma PositionDifferenceIgnoresZ(p1: Point, p2: Point, z1: real, z2: real, sqrt: SqrtFn)
    ensures PositionDifference(p1.(z := z1), p2.(z := z2), sqrt) == PositionDifference(p1, p2, sqrt)
  {
  }

  /** The distance is never negative, and zero exactly when the positions agree in x and y. */
  lemma PositionDifferenceZero(p1: Point, p2: Point, sqrt: SqrtFn)
    requires IsSqrt(sqrt)
    ensures PositionDifference(p1, p2, sqrt) >= 0.0
    ensures PositionDifference(p1, p2, sqrt) == 0.0 <==> (p1.x == p2.x && p1.y == p2.y)
  {
    var dx, dy := p1.x - p2.x, p1.y - p2.y;
    if dx == 0.0 && dy == 0.0 {
      assert SquaredXY(dx, dy) == 0.0;
      SqrtZero(sqrt);
    } else {
      SquaredXYPos(dx, dy);
      SqrtPos(sqrt, SquaredXY(dx, dy));
    }
  }

  function Dot(ux: real, uy: real, vx: real, vy: real): real { ux * vx + uy * vy }

  function Cross(ux: real, uy: real, vx: real, vy: real): real { ux * vy - uy * vx }

  /** The distance travelled along ab by the projection of ap, for |ab| = mag. */
  function Traveled(apx: real, apy: real, abx: real, aby: real, mag: real): real
    requires mag != 0.0
  {
    Dot(apx, apy, abx, aby) / mag
  }

  /** The squared length of ap minus its projection onto ab. */
  function ResidualSquared(apx: real, apy: real, abx: real, aby: real, mag: real): real
    requires mag != 0.0
  {
    SquaredXY(apx - abx * Traveled(apx, apy, abx, aby, mag) / mag, apy - aby * Traveled(apx, apy, abx, aby, mag) / mag)
  }

  /**
   * `lateral_and_projection_distance_2d(p, a, b)`: the signed lateral offset of `p` from the
   * directed line a->b and its projection along that line, or `None` (the source's single NaN)
   * when |ab| is zero.
   */
  function LateralAndProjection(p: Point, a: Point, b: Point, sqrt: SqrtFn): (r: Option<(real, real)>)
    ensures r.None? <==> sqrt(SquaredXY(b.x - a.x, b.y - a.y)) == 0.0
  {
    var abx, aby := b.x - a.x, b.y - a.y;
    var mag := sqrt(SquaredXY(abx, aby));
    if mag == 0.0 then None
    else
      var apx, apy := p.x - a.x, p.y - a.y;
      var lateralMagnitude := sqrt(ResidualSquared(apx, apy, abx, aby, mag));
      var sign := if Cross(abx, aby, apx, apy) < 0.0 then -1.0 else 1.0;
      Some((sign * lateralMagnitude, Traveled(apx, apy, abx, aby, mag)))
  }

  lemma MagnitudeZero(sqrt: SqrtFn, ux: real, uy: real)
    requires IsSqrt(sqrt)
    ensures sqrt(SquaredXY(ux, uy)) == 0.0 <==> (ux == 0.0 && uy == 0.0)
  {
    PositionDifferenceZero(Point(ux, uy, 0.0), Point(0.0, 0.0, 0.0), sqrt);
  }

  /** Lagrange's identity and its two halves, written out for the solver. */
  lemma Lagrange(apx: real, apy: real, abx: real, aby: real, l2: real, dot: real, cr: real)
    requires l2 == SquaredXY(abx, aby) && dot == Dot(apx, apy, abx, aby) && cr == Cross(abx, aby, apx, apy)
    ensures apx * l2 - abx * dot == -aby * cr
    ensures apy * l2 - aby * dot == abx * cr
    ensures cr * cr + dot * dot == SquaredXY(apx, apy) * l2
  {
  }

  /** Scaling both components by `l2` scales the squared length by `l2 * l2`. */
  lemma ScaledSquares(dx: real, dy: real, l2: real, rr: real)
    requires rr == SquaredXY(dx, dy)
    ensures rr * l2 * l2 == (dx * l2) * (dx * l2) + (dy * l2) * (dy * l2)
  {
  }

  /** The squared length of (-aby cr, abx cr) is |ab|^2 cr^2. */
  lemma CrossSquares(ex: real, ey: real, abx: real, aby: real, cr: real)
    requires ex == -aby * cr && ey == abx * cr
    ensures ex * ex + ey * ey == (cr * cr) * SquaredXY(abx, aby)
  {
    assert ex * ex == aby * aby * (cr * cr);
    assert ey * ey == abx * abx * (cr * cr);
  }

  lemma ScaledOffset(p: real, q: real, k: real, l2: real, dot: real)
    requires k * l2 == dot
    ensures (p - q * k) * l2 == p * l2 - q * dot
  {
    assert (p - q * k) * l2 == p * l2 - q * (k * l2);
  }

  /** Removing k times ab from ap, with k |ab|^2 = dot(ap, ab), leaves a residual of squared length cross^2 / |ab|^2. */
  lemma Residual(apx: real, apy: real, abx: real, aby: real, k: real, l2: real, cr: real, rr: real)
    requires l2 == SquaredXY(abx, aby) && l2 != 0.0
    requires k * l2 == Dot(apx, apy, abx, aby)
    requires cr == Cross(abx, aby, apx, apy)
    requires rr == SquaredXY(apx - abx * k, apy - aby * k)
    ensures rr * l2 == cr * cr
  {
    var dot := Dot(apx, apy, abx, aby);
    Lagrange(apx, apy, abx, aby, l2, dot, cr);
    var dx, dy := apx - abx * k, apy - aby * k;
    ScaledOffset(apx, abx, k, l2, dot);
    ScaledOffset(apy, aby, k, l2, dot);
    ScaledSquares(dx, dy, l2, rr);
    CrossSquares(dx * l2, dy * l2, abx, aby, cr);
    var c2 := cr * cr;
    CancelMul(rr * l2, c2, l2, rr * l2 * l2, c2 * l2);
  }

  /** The two divisions by |ab| in the source are one division by |ab|^2. */
  lemma Rescale(abx: real, dot: real, m: real, l2: real, t: real, k: real)
    requires m != 0.0 && l2 != 0.0 && m * m == l2 && t == dot / m && k == dot / l2
    ensures abx * t / m == abx * k
    ensures t * m == dot
  {
    var u := abx * t / m;
    var w := abx * k;
    assert u * m == abx * t;
    assert u * l2 == abx * t * m;
    assert abx * t * m == abx * dot;
    assert w * l2 == abx * dot;
    CancelMul(u, w, l2, u * l2, w * l2);
  }

  lemma TraveledSquared(dot: real, m: real, l2: real, t: real)
    requires m != 0.0 && m * m == l2 && t == dot / m
    ensures t * t * l2 == dot * dot
  {
    assert t * m == dot;
    assert t * t * l2 == (t * m) * (t * m);
  }

  lemma SquaredXYCongruence(a: real, b: real, c: real, d: real)
    requires a == c && b == d
    ensures SquaredXY(a, b) == SquaredXY(c, d)
  {
  }

  lemma ResidualSquaredUnfold(apx: real, apy: real, abx: real, aby: real, mag: real, t: real)
    requires mag != 0.0 && t == Traveled(apx, apy, abx, aby, mag)
    ensures ResidualSquared(apx, apy, abx, aby, mag) == SquaredXY(apx - abx * t / mag, apy - aby * t / mag)
  {
  }

  /** The source's residual is ap minus dot / |ab|^2 times ab. */
  lemma ResidualRescaled(apx: real, apy: real, abx: real, aby: real, mag: real, k: real)
    requires mag != 0.0 && mag * mag == SquaredXY(abx, aby) && SquaredXY(abx, aby) != 0.0
    requires k == Dot(apx, apy, abx, aby) / SquaredXY(abx, aby)
    ensures ResidualSquared(apx, apy, abx, aby, mag) == SquaredXY(apx - abx * k, apy - aby * k)
  {
    var dot, l2 := Dot(apx, apy, abx, aby), SquaredXY(abx, aby);
    var t := Traveled(apx, apy, abx, aby, mag);
    ResidualSquaredUnfold(apx, apy, abx, aby, mag, t);
    Rescale(abx, dot, mag, l2, t, k);
    Rescale(aby, dot, mag, l2, t, k);
    SquaredXYCongruence(apx - abx * t / mag, apy - aby * t / mag, apx - abx * k, apy - aby * k);
  }

  /** With mag^2 = |ab|^2: the residual times |ab|^2 is cross^2. */
  lemma ResidualCross(apx: real, apy: real, abx: real, aby: real, mag: real)
    requires mag != 0.0 && mag * mag == SquaredXY(abx, aby)
    ensures ResidualSquared(apx, apy, abx, aby, mag) * SquaredXY(abx, aby)
            == Cross(abx, aby, apx, apy) * Cross(abx, aby, apx, apy)
  {
    var l2 := SquaredXY(abx, aby);
    NonZeroMul(mag, mag, l2);
    var k := Dot(apx, apy, abx, aby) / l2;
    assert k * l2 == Dot(apx, apy, abx, aby);
    ResidualRescaled(apx, apy, abx, aby, mag, k);
    Residual(apx, apy, abx, aby, k, l2, Cross(abx, aby, apx, apy), ResidualSquared(apx, apy, abx, aby, mag));
  }

  /** With mag^2 = |ab|^2: residual |ab|^2 = cross^2, projection mag = dot, and residual + projection^2 = |ap|^2. */
  lemma DecompositionAlgebra(apx: real, apy: real, abx: real, aby: real, mag: real)
    requires mag != 0.0 && mag * mag == SquaredXY(abx, aby)
    ensures ResidualSquared(apx, apy, abx, aby, mag) * SquaredXY(abx, aby)
            == Cross(abx, aby, apx, apy) * Cross(abx, aby, apx, apy)
    ensures Traveled(apx, apy, abx, aby, mag) * mag == Dot(apx, apy, abx, aby)
    ensures ResidualSquared(apx, apy, abx, aby, mag) + Traveled(apx, apy, abx, aby, mag) * Traveled(apx, apy, abx, aby, mag)
            == SquaredXY(apx, apy)
  {
    var l2 := SquaredXY(abx, aby);
    NonZeroMul(mag, mag, l2);
    var dot, cr := Dot(apx, apy, abx, aby), Cross(abx, aby, apx, apy);
    var t := Traveled(apx, apy, abx, aby, mag);
    Rescale(abx, dot, mag, l2, t, dot / l2);
    var rr := ResidualSquared(apx, apy, abx, aby, mag);
    ResidualCross(apx, apy, abx, aby, mag);
    TraveledSquared(dot, mag, l2, t);
    Lagrange(apx, apy, abx, aby, l2, dot, cr);
    var s := SquaredXY(apx, apy);
    CancelMul(rr + t * t, s, l2, rr * l2 + t * t * l2, s * l2);
  }

  /** The pair the source returns for a non-zero |ab|, in terms of the residual and the projection. */
  lemma LateralAndProjectionUnfold(p: Point, a: Point, b: Point, sqrt: SqrtFn, mag: real, cr: real, rr: real, t: real)
    requires mag == sqrt(SquaredXY(b.x - a.x, b.y - a.y)) && mag != 0.0
    requires cr == Cross(b.x - a.x, b.y - a.y, p.x - a.x, p.y - a.y)
    requires rr == ResidualSquared(p.x - a.x, p.y - a.y, b.x - a.x, b.y - a.y, mag)
    requires t == Traveled(p.x - a.x, p.y - a.y, b.x - a.x, b.y - a.y, mag)
    ensures LateralAndProjection(p, a, b, sqrt) == Some(((if cr < 0.0 then -1.0 else 1.0) * sqrt(rr), t))
  {
  }

  /** A residual with rr |ab|^2 = cross^2 has a real square root, positive when cross is non-zero. */
  lemma ResidualRoot(sqrt: SqrtFn, cr: real, rr: real, l2: real, m: real)
    requires IsSqrt(sqrt) && l2 > 0.0 && rr * l2 == cr * cr && m == sqrt(rr)
    ensures rr >= 0.0 && m >= 0.0 && m * m == rr && (cr != 0.0 ==> m > 0.0)
  {
    SquareNonNeg(cr, cr * cr);
    if rr < 0.0 { PosMul(-rr, l2, -(rr * l2)); }
    if cr != 0.0 {
      SquarePos(cr, cr * cr);
      SqrtPos(sqrt, rr);
    }
  }

  /** The signed magnitude: its square is the magnitude's, its sign the chosen one. */
  lemma SignedMagnitude(cr: real, m: real, lateral: real)
    requires m >= 0.0 && (cr != 0.0 ==> m > 0.0) && lateral == (if cr < 0.0 then -1.0 else 1.0) * m
    ensures lateral * lateral == m * m && (lateral >= 0.0 <==> cr >= 0.0)
  {
  }

  /**
   * `pair` decomposes ap along ab, |ab| = mag: the projection times |ab| is the dot product,
   * the lateral offset is non-negative exactly when cross(ab, ap) is, and
   * lateral^2 + projection^2 = |ap|^2.
   */
  predicate Decomposes(apx: real, apy: real, abx: real, aby: real, mag: real, pair: (real, real)) {
    && pair.1 * mag == Dot(apx, apy, abx, aby)
    && (pair.0 >= 0.0 <==> Cross(abx, aby, apx, apy) >= 0.0)
    && pair.0 * pair.0 + pair.1 * pair.1 == SquaredXY(apx, apy)
  }

  /** The source's lateral offset and projection decompose ap along ab. */
  lemma ResidualDecomposes(apx: real, apy: real, abx: real, aby: real, sqrt: SqrtFn, mag: real, lateral: real, t: real)
    requires IsSqrt(sqrt) && mag == sqrt(SquaredXY(abx, aby)) && mag != 0.0
    requires t == Traveled(apx, apy, abx, aby, mag)
    requires lateral == (if Cross(abx, aby, apx, apy) < 0.0 then -1.0 else 1.0) * sqrt(ResidualSquared(apx, apy, abx, aby, mag))
    ensures Decomposes(apx, apy, abx, aby, mag, (lateral, t))
  {
    var l2 := SquaredXY(abx, aby);
    var cr, dot, sq := Cross(abx, aby, apx, apy), Dot(apx, apy, abx, aby), SquaredXY(apx, apy);
    var rr := ResidualSquared(apx, apy, abx, aby, mag);
    var m := sqrt(rr);
    assert t * mag == dot && lateral * lateral == rr && (lateral >= 0.0 <==> cr >= 0.0) && rr + t * t == sq by {
      assert mag * mag == l2;
      MagnitudeZero(sqrt, abx, aby);
      SquaredXYPos(abx, aby);
      DecompositionAlgebra(apx, apy, abx, aby, mag);
      ResidualRoot(sqrt, cr, rr, l2, m);
      SignedMagnitude(cr, m, lateral);
    }
    PairFacts(lateral, t, rr, sq);
  }

  lemma PairFacts(lateral: real, projection: real, rr: real, sq: real)
    requires lateral * lateral == rr && rr + projection * projection == sq
    ensures lateral * lateral + projection * projection == sq
  {
  }

  /**
   * `lateral_and_projection_distance_2d` returns no pair exactly when a and b coincide in x
   * and y; otherwise its pair decomposes ap along ab.
   */
  lemma LateralAndProjectionProperties(p: Point, a: Point, b: Point, sqrt: SqrtFn)
    requires IsSqrt(sqrt)
    ensures (b.x == a.x && b.y == a.y) <==> LateralAndProjection(p, a, b, sqrt).None?
    ensures LateralAndProjection(p, a, b, sqrt).Some? ==>
            Decomposes(p.x - a.x, p.y - a.y, b.x - a.x, b.y - a.y, sqrt(SquaredXY(b.x - a.x, b.y - a.y)),
                       LateralAndProjection(p, a, b, sqrt).value)
  {
    var abx, aby, apx, apy := b.x - a.x, b.y - a.y, p.x - a.x, p.y - a.y;
    MagnitudeZero(sqrt, abx, aby);
    var mag := sqrt(SquaredXY(abx, aby));
    if mag != 0.0 {
      var cr := Cross(abx, aby, apx, apy);
      var rr := ResidualSquared(apx, apy, abx, aby, mag);
      var t := Traveled(apx, apy, abx, aby, mag);
      var lateral := (if cr < 0.0 then -1.0 else 1.0) * sqrt(rr);
      ResidualDecomposes(apx, apy, abx, aby, sqrt, mag, lateral, t);
      LateralAndProjectionUnfold(p, a, b, sqrt, mag, cr, rr, t);
    }
  }

  /**
   * The point `d` along a->b in the XY plane, keeping the z of `a`; when a and b coincide the
   * direction is undefined and `a` is returned.
   */
  function ProjectionToPosition(d: real, a: Point, b: Point, sqrt: SqrtFn): (r: Point)
    ensures r.z == a.z
  {
    var abx, aby := b.x - a.x, b.y - a.y;
    var mag := sqrt(SquaredXY(abx, aby));
    if mag == 0.0 then a else Point(a.x + abx * (d / mag), a.y + aby * (d / mag), a.z)
  }

  /** Projecting the generated point back onto a->b recovers `d` with no lateral offset. */
  lemma ProjectionToPositionRoundTrip(d: real, a: Point, b: Point, sqrt: SqrtFn)
    requires IsSqrt(sqrt) && (a.x != b.x || a.y != b.y)
    ensures LateralAndProjection(ProjectionToPosition(d, a, b, sqrt), a, b, sqrt) == Some((0.0, d))
  {
    var abx, aby := b.x - a.x, b.y - a.y;
    MagnitudeZero(sqrt, abx, aby);
    var l2 := SquaredXY(abx, aby);
    var mag := sqrt(l2);
    assert mag * mag == l2;
    NonZeroMul(mag, mag, l2);
    var p := ProjectionToPosition(d, a, b, sqrt);
    var c := d / mag;
    var apx, apy := abx * c, aby * c;
    assert p.x - a.x == apx && p.y - a.y == apy;
    var cr := Cross(abx, aby, apx, apy);
    assert cr == 0.0;
    DecompositionAlgebra(apx, apy, abx, aby, mag);
    var t := Traveled(apx, apy, abx, aby, mag);
    var dot := Dot(apx, apy, abx, aby);
    assert dot == c * l2;
    assert t * mag == c * l2;
    assert d * mag == c * l2 by {
      assert c * mag == d;
      assert d * mag == c * mag * mag;
    }
    CancelMul(t, d, mag, t * mag, d * mag);
    var rr := ResidualSquared(apx, apy, abx, aby, mag);
    assert rr * l2 == 0.0;
    if rr != 0.0 { NonZeroMul(rr, l2, rr * l2); }
    SqrtZero(sqrt);
  }

  // ---- Angles, in degrees ----

  function Ceil(v: real): int {
    -((-v).Floor)
  }

  /** The number of whole turns `cap_angle_plus_minus_180_deg` removes from `angle`. */
  function Turns(angle: real): int {
    Ceil((angle - 180.0) / 360.0)
  }

  /** The closed form of `cap_angle_plus_minus_180_deg`. */
  function CapAngleSpec(angle: real): (r: real)
    ensures -180.0 < r <= 180.0
  {
    var k := Turns(angle);
    assert -180.0 < angle - 360.0 * k as real <= 180.0 by {
      var q := (angle - 180.0) / 360.0;
      assert (-q).Floor as real <= -q < (-q).Floor as real + 1.0;
      assert q <= k as real < q + 1.0;
    }
    angle - 360.0 * k as real
  }

  /** Two angles in (-180, 180] that differ by a multiple of 360 are equal. */
  lemma CapAngleUnique(r1: real, r2: real, k: int)
    requires -180.0 < r1 <= 180.0 && -180.0 < r2 <= 180.0
    requires r1 - r2 == 360.0 * k as real
    ensures r1 == r2
  {
  }

  /**
   * The characterisation of the capped angle: it is the one value in (-180, 180] that
   * differs from the input by a whole number of turns.
   */
  lemma CapAngleSpecIsUnique(angle: real, r: real, k: int)
    requires -180.0 < r <= 180.0 && angle - r == 360.0 * k as real
    ensures CapAngleSpec(angle) == r
  {
    CapAngleUnique(CapAngleSpec(angle), r, k - Turns(angle));
  }

  lemma CapAngleSpecIdempotent(angle: real)
    ensures CapAngleSpec(CapAngleSpec(angle)) == CapAngleSpec(angle)
  {
    CapAngleSpecIsUnique(CapAngleSpec(angle), CapAngleSpec(angle), 0);
  }

  /** Adding whole turns does not change the capped angle. */
  lemma CapAngleSpecPeriodic(angle: real, k: int)
    ensures CapAngleSpec(angle + 360.0 * k as real) == CapAngleSpec(angle)
  {
    CapAngleSpecIsUnique(angle + 360.0 * k as real, CapAngleSpec(angle), k + Turns(angle));
  }

  /** `cap_angle_plus_minus_180_deg`, with the source's two correcting loops. */
  method CapAngle(angle0: real) returns (angle: real)
    ensures angle == CapAngleSpec(angle0)
  {
    angle := angle0;
    ghost var turns: int := 0;
    while angle <= -180.0
      invariant angle == angle0 + 360.0 * turns as real
      decreases -angle.Floor
    {
      angle := angle + 360.0;
      turns := turns + 1;
    }
    while angle > 180.0
      invariant angle == angle0 + 360.0 * turns as real
      invariant angle > -180.0
      decreases angle.Floor
    {
      angle := angle - 360.0;
      turns := turns - 1;
    }
    CapAngleSpecIsUnique(angle0, angle, -turns);
  }

  /** `compare_angles(a1, a2, thresh)`: the wrapped difference is strictly within `thresh`. */
  predicate CompareAngles(angle1: real, angle2: real, thresh: real)
    ensures CompareAngles(angle1, angle2, thresh) ==> thresh > 0.0
  {
    Abs(CapAngleSpec(angle1 - angle2)) < thresh
  }

  /** Negating an angle keeps the magnitude of its capped value (180 maps to itself). */
  lemma CapAngleSpecNegate(angle: real)
    ensures Abs(CapAngleSpec(-angle)) == Abs(CapAngleSpec(angle))
  {
    var r := CapAngleSpec(angle);
    if r == 180.0 {
      CapAngleSpecIsUnique(-angle, 180.0, -Turns(angle) - 1);
    } else {
      CapAngleSpecIsUnique(-angle, -r, -Turns(angle));
    }
  }

  lemma CompareAnglesSymmetric(angle1: real, angle2: real, thresh: real)
    ensures CompareAngles(angle1, angle2, thresh) == CompareAngles(angle2, angle1, thresh)
  {
    CapAngleSpecNegate(angle1 - angle2);
    assert -(angle1 - angle2) == angle2 - angle1;
  }

  /** `orient_items`: the pair as (start, end) by the bearing from the first to the second. */
  function OrientItems<T>(item1: T, item2: T, bearing: real, direction: real, thresh: real): (r: (Option<T>, Option<T>))
    ensures CompareAngles(bearing, direction, thresh) ==> r == (Some(item1), Some(item2))
    ensures !CompareAngles(bearing, direction, thresh) && CompareAngles(bearing, -direction, thresh) ==>
              r == (Some(item2), Some(item1))
    ensures !CompareAngles(bearing, direction, thresh) && !CompareAngles(bearing, -direction, thresh) ==>
              r == (None, None)
  {
    if CompareAngles(bearing, direction, thresh) then (Some(item1), Some(item2))
    else if CompareAngles(bearing, -direction, thresh) then (Some(item2), Some(item1))
    else (None, None)
  }

  /** The oriented pair is always the inputs in some order, or neither. */
  lemma OrientItemsPermutation<T>(item1: T, item2: T, bearing: real, direction: real, thresh: real)
    ensures var r := OrientItems(item1, item2, bearing, direction, thresh);
            r == (None, None) || multiset{r.0, r.1} == multiset{Some(item1), Some(item2)}
  {
  }

  /** The default orientation direction `direction` and its negation are tried, never direction + 180. */
  lemma OrientItemsNegation(item1: real, item2: real)
    ensures OrientItems(item1, item2, -90.0, 90.0, 45.0) == (Some(item2), Some(item1))
    ensures OrientItems(item1, item2, -170.0, 10.0, 45.0) == (None, None)
  {
    CapAngleSpecIsUnique(-180.0, 180.0, -1);
    CapAngleSpecIsUnique(-190.0, 170.0, -1);
    CapAngleSpecIsUnique(-180.0 - 10.0, 170.0, -1);
    CapAngleSpecIsUnique(-170.0 - 10.0, 180.0, -1);
    CapAngleSpecIsUnique(-90.0 - 90.0, 180.0, -1);
    CapAngleSpecIsUnique(-90.0 + 90.0, 0.0, 0);
    CapAngleSpecIsUnique(-170.0 + 10.0, -160.0, 0);
  }
}
