/** Plane geometry behind hit-testing (src/ExcalidrawClone.jsx, the
    utilities at the top of the file).

    Coordinates are exact reals. The source compares Euclidean distances
    (`Math.sqrt`) against thresholds; here every such comparison is made on
    squared distances through `Within` and `Beyond`, which agree with the
    square-root comparison for every threshold, negative ones included. */
module Geometry {

  datatype Point = Point(x: real, y: real)

  function Min(a: real, b: real): real { if a <= b then a else b }
  function Max(a: real, b: real): real { if a >= b then a else b }
  function Sq(a: real): real { a * a }

  /** Squared Euclidean distance. */
  function DistSq(a: Point, b: Point): real {
    Sq(b.x - a.x) + Sq(b.y - a.y)
  }

  /** `distance < threshold`, stated on the squared distance `d2 >= 0`. */
  predicate Within(d2: real, threshold: real) {
    0.0 < threshold && d2 < threshold * threshold
  }

  /** `distance > radius`, stated on the squared distance `d2 >= 0`. */
  predicate Beyond(d2: real, radius: real) {
    radius < 0.0 || d2 > radius * radius
  }

  lemma MulPos(a: real, b: real)
    requires a > 0.0 && b > 0.0
    ensures a * b > 0.0
  {
  }

  lemma MulNonneg(a: real, b: real)
    requires a >= 0.0 && b >= 0.0
    ensures a * b >= 0.0
  {
  }

  lemma SqNonneg(a: real)
    ensures Sq(a) >= 0.0
  {
    if a < 0.0 {
      MulPos(-a, -a);
    } else {
      MulNonneg(a, a);
    }
  }

  lemma SumSqNonneg(u: real, v: real)
    ensures u * u + v * v >= 0.0
  {
    SquareNonneg(u, u, u * u);
    SquareNonneg(v, v, v * v);
  }

  /** `m` is the square of a non-zero `a` (written `a * b` with `a == b`,
      which keeps the solver from rewriting the square away). */
  lemma SquarePos(a: real, b: real, m: real)
    requires a == b && a != 0.0 && m == a * b
    ensures m > 0.0
  {
    if a > 0.0 {
      MulPos(a, b);
    } else {
      MulPos(-a, -b);
      assert m == (-a) * (-b);
    }
  }

  lemma SquareNonneg(a: real, b: real, m: real)
    requires a == b && m == a * b
    ensures m >= 0.0
  {
    if a != 0.0 {
      SquarePos(a, b, m);
    }
  }

  lemma SumSqZero(u: real, v: real)
    requires u * u + v * v == 0.0
    ensures u == 0.0 && v == 0.0
  {
    var su, sv := u * u, v * v;
    SquareNonneg(u, u, su);
    SquareNonneg(v, v, sv);
    if u != 0.0 {
      SquarePos(u, u, su);
    }
    if v != 0.0 {
      SquarePos(v, v, sv);
    }
  }

  lemma DistSqNonneg(a: Point, b: Point)
    ensures DistSq(a, b) >= 0.0
  {
    SumSqNonneg(b.x - a.x, b.y - a.y);
  }

  /** Only a point is at distance zero from itself (the source's
      `lineLen === 0` test singles out the degenerate segment). */
  lemma DistSqZero(a: Point, b: Point)
    requires DistSq(a, b) == 0.0
    ensures a == b
  {
    SumSqZero(b.x - a.x, b.y - a.y);
  }

  /** `Within` is the strict square-root comparison it replaces: for a
      non-negative distance `d`, `d < t` holds exactly when `Within(d * d, t)`. */
  lemma {:induction false} WithinExact(d: real, t: real)
    requires d >= 0.0
    ensures Within(d * d, t) <==> d < t
  {
    if 0.0 < t && d < t {
      assert t * t - d * d == (t - d) * (t + d);
      MulPos(t - d, t + d);
    } else if 0.0 < t {
      assert d * d - t * t == (d - t) * (d + t);
      MulNonneg(d - t, d + t);
    }
  }

  /** `Beyond` is the strict square-root comparison it replaces: for a
      non-negative distance `d`, `d > r` holds exactly when `Beyond(d * d, r)`. */
  lemma {:induction false} BeyondExact(d: real, r: real)
    requires d >= 0.0
    ensures Beyond(d * d, r) <==> d > r
  {
    if r >= 0.0 && d > r {
      assert d * d - r * r == (d - r) * (d + r);
      MulPos(d - r, d + r);
    } else if r >= 0.0 {
      assert r * r - d * d == (r - d) * (r + d);
      MulNonneg(r - d, r + d);
    }
  }

  /** The point at parameter `t` along the segment from `a` to `b`. */
  function Lerp(a: Point, b: Point, t: real): Point {
    Point(a.x + t * (b.x - a.x), a.y + t * (b.y - a.y))
  }

  /** `Math.max(lo, Math.min(hi, v))`. */
  function Clamp(lo: real, hi: real, v: real): real {
    Max(lo, Min(hi, v))
  }

  function Dot(ux: real, uy: real, vx: real, vy: real): real { ux * vx + uy * vy }

  /** Parameter of the projection of `p` onto the line through `a` and `b`,
      clamped to the segment. */
  function ProjectionParam(p: Point, a: Point, b: Point): (t: real)
    requires DistSq(a, b) != 0.0
    ensures 0.0 <= t <= 1.0
  {
    Clamp(0.0, 1.0, Dot(p.x - a.x, p.y - a.y, b.x - a.x, b.y - a.y) / DistSq(a, b))
  }

  /** `isPointNearLine`: the point is strictly closer than `threshold` to the
      clamped projection onto the segment; a degenerate segment falls back to
      the distance from its single point. */
  predicate NearSegment(p: Point, a: Point, b: Point, threshold: real) {
    if DistSq(a, b) == 0.0 then Within(DistSq(p, a), threshold)
    else Within(DistSq(p, Lerp(a, b, ProjectionParam(p, a, b))), threshold)
  }

  /** One coordinate of the segment quadratic: with e = s d - w,
      e^2 == w^2 - 2 s (w d) + s^2 d^2. */
  lemma ExpandOne(w: real, d: real, s: real)
    ensures Sq(s * d - w) == Sq(w) - 2.0 * s * (w * d) + s * s * Sq(d)
  {
  }

  lemma SqNeg(a: real)
    ensures Sq(-a) == Sq(a)
  {
  }

  /** The segment quadratic on plain coordinates: with e = s d - w,
      |e|^2 == |w|^2 - 2 s (w . d) + s^2 |d|^2. */
  lemma ExpandBoth(wx: real, wy: real, dx: real, dy: real, s: real, ex: real, ey: real,
                   p0: real, w: real, l: real)
    requires ex == s * dx - wx && ey == s * dy - wy
    requires p0 == Sq(wx) + Sq(wy) && w == Dot(wx, wy, dx, dy) && l == Sq(dx) + Sq(dy)
    ensures Sq(ex) + Sq(ey) == p0 - 2.0 * s * w + s * s * l
  {
    ExpandOne(wx, dx, s);
    ExpandOne(wy, dy, s);
    Distribute(s * s, Sq(dx), Sq(dy));
    Distribute(2.0 * s, wx * dx, wy * dy);
  }

  /** Squared distance from `p` to a point of the segment, as a quadratic in
      the segment parameter `s`. */
  lemma {:induction false} DistSqAlong(p: Point, a: Point, b: Point, s: real)
    ensures DistSq(p, Lerp(a, b, s))
         == DistSq(p, a)
            - 2.0 * s * Dot(p.x - a.x, p.y - a.y, b.x - a.x, b.y - a.y)
            + s * s * DistSq(a, b)
  {
    var wx, wy := p.x - a.x, p.y - a.y;
    var q := Lerp(a, b, s);
    SqNeg(wx);
    SqNeg(wy);
    ExpandBoth(wx, wy, b.x - a.x, b.y - a.y, s, q.x - p.x, q.y - p.y,
               DistSq(p, a), Dot(wx, wy, b.x - a.x, b.y - a.y), DistSq(a, b));
  }

  lemma Distribute(k: real, u: real, v: real)
    ensures k * (u + v) == k * u + k * v
  {
  }

  /** On [0, 1], the quadratic `s*s*L - 2*s*w` (L > 0) is smallest at the
      clamp of its vertex `w / L`. */
  lemma {:induction false} ClampedVertexIsMinimum(w: real, L: real, s: real)
    requires L >= 0.0 && L != 0.0
    requires 0.0 <= s <= 1.0
    ensures var t := Clamp(0.0, 1.0, w / L);
            t * t * L - 2.0 * t * w <= s * s * L - 2.0 * s * w
  {
    var t := Clamp(0.0, 1.0, w / L);
    var star := w / L;
    assert w == star * L;
    var g := (s - t) * (s + t - 2.0 * star);
    assert (s * s * L - 2.0 * s * w) - (t * t * L - 2.0 * t * w) == g * L;
    if star <= 0.0 {
      assert t == 0.0;
      MulNonneg(s, s - 2.0 * star);
    } else if star >= 1.0 {
      assert t == 1.0;
      MulNonneg(1.0 - s, 2.0 * star - 1.0 - s);
      assert g == (1.0 - s) * (2.0 * star - 1.0 - s);
    } else {
      assert t == star;
      assert g == (s - t) * (s - t);
      SquareNonneg(s - t, s - t, g);
    }
    MulNonneg(g, L);
  }

  /** The clamped projection is the point of the segment closest to `p`. */
  lemma {:induction false} ProjectionIsClosest(p: Point, a: Point, b: Point, s: real)
    requires DistSq(a, b) != 0.0
    requires 0.0 <= s <= 1.0
    ensures DistSq(p, Lerp(a, b, ProjectionParam(p, a, b))) <= DistSq(p, Lerp(a, b, s))
  {
    var t := ProjectionParam(p, a, b);
    DistSqNonneg(a, b);
    DistSqAlong(p, a, b, s);
    DistSqAlong(p, a, b, t);
    ClampedVertexIsMinimum(Dot(p.x - a.x, p.y - a.y, b.x - a.x, b.y - a.y), DistSq(a, b), s);
  }

  /** Some point of the segment from `a` to `b` is strictly closer than
      `threshold` to `p`. */
  ghost predicate SomeSegmentPointWithin(p: Point, a: Point, b: Point, threshold: real) {
    exists t: real :: 0.0 <= t <= 1.0 && Within(DistSq(p, Lerp(a, b, t)), threshold)
  }

  /** Independent meaning of `isPointNearLine`: the point is near the
      segment exactly when some point of the segment is within the threshold. */
  lemma {:induction false} NearSegmentIffSomePointWithin(p: Point, a: Point, b: Point, threshold: real)
    ensures NearSegment(p, a, b, threshold) <==> SomeSegmentPointWithin(p, a, b, threshold)
  {
    if DistSq(a, b) == 0.0 {
      DistSqZero(a, b);
      assert Lerp(a, b, 0.0) == a;
      forall t: real | 0.0 <= t <= 1.0
        ensures Lerp(a, b, t) == a
      {
      }
    } else {
      var t0 := ProjectionParam(p, a, b);
      if NearSegment(p, a, b, threshold) {
        assert 0.0 <= t0 <= 1.0 && Within(DistSq(p, Lerp(a, b, t0)), threshold);
      }
      forall t: real | 0.0 <= t <= 1.0 && Within(DistSq(p, Lerp(a, b, t)), threshold)
        ensures NearSegment(p, a, b, threshold)
      {
        ProjectionIsClosest(p, a, b, t);
      }
    }
  }

  /** The dot products of the barycentric test for `p` against the triangle
      `a`, `b`, `c`, with v0 = c - a, v1 = b - a, v2 = p - a. */
  datatype Barycentric = Barycentric(d00: real, d01: real, d02: real, d11: real, d12: real)

  function BarycentricOf(p: Point, a: Point, b: Point, c: Point): Barycentric {
    var v0x, v0y := c.x - a.x, c.y - a.y;
    var v1x, v1y := b.x - a.x, b.y - a.y;
    var v2x, v2y := p.x - a.x, p.y - a.y;
    Barycentric(
      Dot(v0x, v0y, v0x, v0y), Dot(v0x, v0y, v1x, v1y), Dot(v0x, v0y, v2x, v2y),
      Dot(v1x, v1y, v1x, v1y), Dot(v1x, v1y, v2x, v2y))
  }

  function Denominator(k: Barycentric): real { k.d00 * k.d11 - k.d01 * k.d01 }

  /** Coordinate of `p` along `c - a`. */
  function BaryU(k: Barycentric): real
    requires Denominator(k) != 0.0
  {
    (k.d11 * k.d02 - k.d01 * k.d12) / Denominator(k)
  }

  /** Coordinate of `p` along `b - a`. */
  function BaryV(k: Barycentric): real
    requires Denominator(k) != 0.0
  {
    (k.d00 * k.d12 - k.d01 * k.d02) / Denominator(k)
  }

  /** `pointInTriangle`: `u >= 0 && v >= 0 && u + v < 1`. A zero denominator
      (a flat triangle) makes the source divide by zero, and every comparison
      on the resulting Infinity or NaN fails, so that case is `false`. */
  predicate PointInTriangle(p: Point, a: Point, b: Point, c: Point) {
    var k := BarycentricOf(p, a, b, c);
    if Denominator(k) == 0.0 then false
    else BaryU(k) >= 0.0 && BaryV(k) >= 0.0 && BaryU(k) + BaryV(k) < 1.0
  }

  /** 2-D cross product of (ux, uy) and (vx, vy). */
  function Cross(ux: real, uy: real, vx: real, vy: real): real { ux * vy - uy * vx }

  /** (a.c)(b.d) - (a.d)(b.c) == (a x b)(c x d) in two dimensions, with
      a = (ax, ay), b = (bx, b_y), c = (cx, cy), d = (dx, dy). */
  lemma LagrangeIdentity(ax: real, ay: real, bx: real, b_y: real,
                         cx: real, cy: real, dx: real, dy: real)
    ensures Dot(ax, ay, cx, cy) * Dot(bx, b_y, dx, dy) - Dot(ax, ay, dx, dy) * Dot(bx, b_y, cx, cy)
         == Cross(ax, ay, bx, b_y) * Cross(cx, cy, dx, dy)
  {
  }

  /** Cramer's rule for v2 in the basis v0, v1, multiplied out. */
  lemma CrossDecomposition(v0x: real, v0y: real, v1x: real, v1y: real, v2x: real, v2y: real)
    ensures Cross(v2x, v2y, v1x, v1y) * v0x + Cross(v0x, v0y, v2x, v2y) * v1x == v2x * Cross(v0x, v0y, v1x, v1y)
    ensures Cross(v2x, v2y, v1x, v1y) * v0y + Cross(v0x, v0y, v2x, v2y) * v1y == v2y * Cross(v0x, v0y, v1x, v1y)
  {
  }

  lemma Cancel(a: real, b: real, c: real)
    requires c != 0.0 && a * c == b * c
    ensures a == b
  {
    assert (a - b) * c == 0.0;
  }

  lemma DivByProduct(n: real, den: real, cr: real, x: real)
    requires cr != 0.0 && den != 0.0 && den == cr * cr && n == cr * x
    ensures (n / den) * cr == x
  {
    var u := n / den;
    assert u * den == n;
    assert (u * cr) * cr == x * cr;
    Cancel(u * cr, x, cr);
  }

  /** The quotients of the test, scaled by the cross product of v0 and v1,
      are the cross products Cramer's rule gives. */
  lemma ScaledQuotients(v0x: real, v0y: real, v1x: real, v1y: real, v2x: real, v2y: real, u: real, v: real)
    requires var k := Barycentric(
      Dot(v0x, v0y, v0x, v0y), Dot(v0x, v0y, v1x, v1y), Dot(v0x, v0y, v2x, v2y),
      Dot(v1x, v1y, v1x, v1y), Dot(v1x, v1y, v2x, v2y));
      Denominator(k) != 0.0 && u == BaryU(k) && v == BaryV(k)
    ensures Cross(v0x, v0y, v1x, v1y) != 0.0
    ensures u * Cross(v0x, v0y, v1x, v1y) == Cross(v2x, v2y, v1x, v1y)
    ensures v * Cross(v0x, v0y, v1x, v1y) == Cross(v0x, v0y, v2x, v2y)
  {
    var d00, d01, d02 := Dot(v0x, v0y, v0x, v0y), Dot(v0x, v0y, v1x, v1y), Dot(v0x, v0y, v2x, v2y);
    var d11, d12 := Dot(v1x, v1y, v1x, v1y), Dot(v1x, v1y, v2x, v2y);
    var den := d00 * d11 - d01 * d01;
    var cr := Cross(v0x, v0y, v1x, v1y);
    LagrangeIdentity(v0x, v0y, v1x, v1y, v0x, v0y, v1x, v1y);
    LagrangeIdentity(v0x, v0y, v1x, v1y, v2x, v2y, v1x, v1y);
    LagrangeIdentity(v0x, v0y, v1x, v1y, v0x, v0y, v2x, v2y);
    DivByProduct(d11 * d02 - d01 * d12, den, cr, Cross(v2x, v2y, v1x, v1y));
    DivByProduct(d00 * d12 - d01 * d02, den, cr, Cross(v0x, v0y, v2x, v2y));
  }

  /** Dividing Cramer's decomposition by the non-zero cross product. */
  lemma SolveScaled(v0x: real, v0y: real, v1x: real, v1y: real, v2x: real, v2y: real,
                    u: real, v: real, cr: real, x: real, y: real)
    requires cr != 0.0 && u * cr == x && v * cr == y
    requires x * v0x + y * v1x == v2x * cr && x * v0y + y * v1y == v2y * cr
    ensures u * v0x + v * v1x == v2x && u * v0y + v * v1y == v2y
  {
    assert (u * v0x + v * v1x) * cr == (u * cr) * v0x + (v * cr) * v1x;
    assert (u * v0y + v * v1y) * cr == (u * cr) * v0y + (v * cr) * v1y;
    Cancel(u * v0x + v * v1x, v2x, cr);
    Cancel(u * v0y + v * v1y, v2y, cr);
  }

  /** v2 == u v0 + v v1, coordinate-wise. */
  predicate Decomposes(v2x: real, v2y: real, v0x: real, v0y: real, v1x: real, v1y: real, u: real, v: real) {
    u * v0x + v * v1x == v2x && u * v0y + v * v1y == v2y
  }

  /** Cramer's rule behind the barycentric test, on plain coordinates:
      with v0 = (v0x, v0y), v1 = (v1x, v1y), v2 = (v2x, v2y), the quotients
      `u`, `v` of the test solve v2 == u v0 + v v1. */
  lemma BarycentricSolvesPlain(v0x: real, v0y: real, v1x: real, v1y: real, v2x: real, v2y: real, k: Barycentric)
    requires k == Barycentric(
      Dot(v0x, v0y, v0x, v0y), Dot(v0x, v0y, v1x, v1y), Dot(v0x, v0y, v2x, v2y),
      Dot(v1x, v1y, v1x, v1y), Dot(v1x, v1y, v2x, v2y))
    requires Denominator(k) != 0.0
    ensures Decomposes(v2x, v2y, v0x, v0y, v1x, v1y, BaryU(k), BaryV(k))
  {
    var u, v := BaryU(k), BaryV(k);
    ScaledQuotients(v0x, v0y, v1x, v1y, v2x, v2y, u, v);
    CrossDecomposition(v0x, v0y, v1x, v1y, v2x, v2y);
    SolveScaled(v0x, v0y, v1x, v1y, v2x, v2y, u, v, Cross(v0x, v0y, v1x, v1y),
                Cross(v2x, v2y, v1x, v1y), Cross(v0x, v0y, v2x, v2y));
  }

  /** The barycentric coordinates solve p - a == u (c - a) + v (b - a). */
  lemma BarycentricSolves(p: Point, a: Point, b: Point, c: Point)
    requires Denominator(BarycentricOf(p, a, b, c)) != 0.0
    ensures var k := BarycentricOf(p, a, b, c);
            Decomposes(p.x - a.x, p.y - a.y, c.x - a.x, c.y - a.y, b.x - a.x, b.y - a.y, BaryU(k), BaryV(k))
  {
    BarycentricSolvesPlain(c.x - a.x, c.y - a.y, b.x - a.x, b.y - a.y, p.x - a.x, p.y - a.y,
                           BarycentricOf(p, a, b, c));
  }
}
