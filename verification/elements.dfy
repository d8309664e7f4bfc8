/** Whiteboard elements (src/ExcalidrawClone.jsx, "ELEMENT OPERATIONS"):
    the tagged union built by `createElement`, the per-type hit test
    `isPointInElement` and the axis-aligned bounds `getElementBounds`. */
module Elements {
  import opened Common
  import opened Geometry

  type Id = string

  /** A freehand stroke: the source's flat `[x0, y0, x1, y1, ...]` array read
      as points. It starts with the pointer-down point and is never empty. */
  type Stroke = s: seq<Point> | |s| > 0 witness [Point(0.0, 0.0)]

  /** The element types a drawing tool can create. */
  datatype Kind = RectangleKind | EllipseKind | TriangleKind | ArrowKind
                | FreehandKind | TextKind | ImageKind | PinKind

  /** The type-specific part of an element. */
  datatype Body =
    | Rectangle
    | Ellipse
    | Triangle
    | Arrow
    | Freehand(points: Stroke)
    | Text(text: string, width: real, height: real, isEditing: bool)
    | Image(imageData: Option<string>, width: real, height: real)
    | Pin(text: string, tags: seq<string>, width: real, height: real, isEditing: bool)

  datatype Element = Element(
    id: Id,
    x1: real, y1: real, x2: real, y2: real,
    seed: int,
    color: string,
    strokeWidth: real,
    opacity: real,
    body: Body)

  function KindOf(b: Body): Kind {
    match b
    case Rectangle => RectangleKind
    case Ellipse => EllipseKind
    case Triangle => TriangleKind
    case Arrow => ArrowKind
    case Freehand(_) => FreehandKind
    case Text(_, _, _, _) => TextKind
    case Image(_, _, _) => ImageKind
    case Pin(_, _, _, _, _) => PinKind
  }

  /** Text, image and pin are placed by their top-left corner and a size. */
  predicate IsBoxType(b: Body) {
    b.Text? || b.Image? || b.Pin?
  }

  /** The colour every new pin gets. */
  const PinColor: string := "#fbbf24"

  /** JavaScript `v || fallback` for an optional number: a missing value and
      a zero both fall back. */
  function OrElse(v: Option<real>, fallback: real): (r: real)
    ensures r == fallback || (v.Some? && r == v.value)
    ensures r == fallback <==> v == None || v.value == 0.0 || v.value == fallback
  {
    match v
    case None => fallback
    case Some(x) => if x == 0.0 then fallback else x
  }

  /** `createElement`: per-type defaults. The random id and the random number
      behind the seed are parameters (`random` stands for `Math.random()`). */
  function CreateElement(kind: Kind, x1: real, y1: real, x2: Option<real>, y2: Option<real>,
                         color: string, strokeWidth: real, opacity: real,
                         id: Id, random: real): (e: Element)
    requires 0.0 <= random < 1.0
    ensures e.id == id && e.x1 == x1 && e.y1 == y1
    ensures e.x2 == OrElse(x2, x1) && e.y2 == OrElse(y2, y1)
    ensures 0 <= e.seed < 10000
    ensures KindOf(e.body) == kind
    ensures e.strokeWidth == strokeWidth && e.opacity == opacity
    ensures e.color == (if kind == PinKind then PinColor else color)
    ensures e.body.Freehand? ==> e.body.points == [Point(x1, y1)]
    ensures e.body.Text? ==> e.body == Text("", 200.0, 40.0, true)
    ensures e.body.Image? ==> e.body == Image(None, 200.0, 200.0)
    ensures e.body.Pin? ==> e.body == Pin("", [], 150.0, 150.0, true)
  {
    var seed := (random * 10000.0).Floor;
    var body := match kind
      case RectangleKind => Rectangle
      case EllipseKind => Ellipse
      case TriangleKind => Triangle
      case ArrowKind => Arrow
      case FreehandKind => Freehand([Point(x1, y1)])
      case TextKind => Text("", 200.0, 40.0, true)
      case ImageKind => Image(None, 200.0, 200.0)
      case PinKind => Pin("", [], 150.0, 150.0, true);
    Element(id, x1, y1, OrElse(x2, x1), OrElse(y2, y1), seed,
            if kind == PinKind then PinColor else color, strokeWidth, opacity, body)
  }

  // ---------------------------------------------------------------- bounds

  datatype Box = Box(minX: real, maxX: real, minY: real, maxY: real)

  predicate InBox(p: Point, b: Box) {
    b.minX <= p.x <= b.maxX && b.minY <= p.y <= b.maxY
  }

  /** `Math.min(...xs)` on a non-empty list. */
  function MinOf(s: seq<real>): (m: real)
    requires |s| > 0
    ensures forall i :: 0 <= i < |s| ==> m <= s[i]
    ensures exists i :: 0 <= i < |s| && m == s[i]
  {
    if |s| == 1 then s[0]
    else
      var rest := MinOf(s[1..]);
      assert forall i :: 1 <= i < |s| ==> s[i] == s[1..][i - 1];
      Min(s[0], rest)
  }

  /** `Math.max(...xs)` on a non-empty list. */
  function MaxOf(s: seq<real>): (m: real)
    requires |s| > 0
    ensures forall i :: 0 <= i < |s| ==> s[i] <= m
    ensures exists i :: 0 <= i < |s| && m == s[i]
  {
    if |s| == 1 then s[0]
    else
      var rest := MaxOf(s[1..]);
      assert forall i :: 1 <= i < |s| ==> s[i] == s[1..][i - 1];
      Max(s[0], rest)
  }

  function Xs(ps: seq<Point>): (r: seq<real>)
    ensures |r| == |ps| && forall i :: 0 <= i < |ps| ==> r[i] == ps[i].x
  {
    seq(|ps|, i requires 0 <= i < |ps| => ps[i].x)
  }

  function Ys(ps: seq<Point>): (r: seq<real>)
    ensures |r| == |ps| && forall i :: 0 <= i < |ps| ==> r[i] == ps[i].y
  {
    seq(|ps|, i requires 0 <= i < |ps| => ps[i].y)
  }

  /** The min/max box of the two stored corners. */
  function CornerBox(e: Element): Box {
    Box(Min(e.x1, e.x2), Max(e.x1, e.x2), Min(e.y1, e.y2), Max(e.y1, e.y2))
  }

  /** `getElementBounds`. */
  function Bounds(e: Element): Box {
    match e.body
    case Freehand(ps) => Box(MinOf(Xs(ps)), MaxOf(Xs(ps)), MinOf(Ys(ps)), MaxOf(Ys(ps)))
    case Text(_, w, h, _) => Box(e.x1, e.x1 + w, e.y1, e.y1 + h)
    case Image(_, w, h) => Box(e.x1, e.x1 + w, e.y1, e.y1 + h)
    case Pin(_, _, w, h, _) => Box(e.x1, e.x1 + w, e.y1, e.y1 + h)
    case _ => CornerBox(e)
  }

  /** The bounds of a stroke hold every point, and each side touches one. */
  lemma {:induction false} FreehandBoundsTight(e: Element)
    requires e.body.Freehand?
    ensures forall i :: 0 <= i < |e.body.points| ==> InBox(e.body.points[i], Bounds(e))
    ensures exists i :: 0 <= i < |e.body.points| && e.body.points[i].x == Bounds(e).minX
    ensures exists i :: 0 <= i < |e.body.points| && e.body.points[i].x == Bounds(e).maxX
    ensures exists i :: 0 <= i < |e.body.points| && e.body.points[i].y == Bounds(e).minY
    ensures exists i :: 0 <= i < |e.body.points| && e.body.points[i].y == Bounds(e).maxY
  {
    var ps := e.body.points;
    var xs, ys := Xs(ps), Ys(ps);
    assert Bounds(e) == Box(MinOf(xs), MaxOf(xs), MinOf(ys), MaxOf(ys));
    var i0 :| 0 <= i0 < |xs| && MinOf(xs) == xs[i0];
    var i1 :| 0 <= i1 < |xs| && MaxOf(xs) == xs[i1];
    var i2 :| 0 <= i2 < |ys| && MinOf(ys) == ys[i2];
    var i3 :| 0 <= i3 < |ys| && MaxOf(ys) == ys[i3];
    assert ps[i0].x == Bounds(e).minX && ps[i1].x == Bounds(e).maxX;
    assert ps[i2].y == Bounds(e).minY && ps[i3].y == Bounds(e).maxY;
  }

  // ------------------------------------------------------------- hit test

  function Abs(a: real): real { if a < 0.0 then -a else a }

  /** The ellipse inscribed in the corner box, with the source's 1.05 margin;
      a zero radius never hits. */
  predicate EllipseHit(p: Point, e: Element) {
    var cx, cy := (e.x1 + e.x2) / 2.0, (e.y1 + e.y2) / 2.0;
    var rx, ry := Abs(e.x2 - e.x1) / 2.0, Abs(e.y2 - e.y1) / 2.0;
    if rx == 0.0 || ry == 0.0 then false
    else
      SquarePos(rx, rx, Sq(rx));
      SquarePos(ry, ry, Sq(ry));
      Sq(p.x - cx) / Sq(rx) + Sq(p.y - cy) / Sq(ry) <= 1.05
  }

  /** The triangle drawn for the corner box: apex at the top middle, base
      along the bottom edge. */
  function TriangleTop(e: Element): Point { Point((e.x1 + e.x2) / 2.0, Min(e.y1, e.y2)) }
  function TriangleLeft(e: Element): Point { Point(Min(e.x1, e.x2), Max(e.y1, e.y2)) }
  function TriangleRight(e: Element): Point { Point(Max(e.x1, e.x2), Max(e.y1, e.y2)) }

  /** Some consecutive pair of stroke points has `p` near its segment; a
      single point has no segment and is never hit. */
  predicate AnySegmentNear(p: Point, ps: seq<Point>, threshold: real)
    decreases |ps|
  {
    |ps| >= 2 && (NearSegment(p, ps[0], ps[1], threshold) || AnySegmentNear(p, ps[1..], threshold))
  }

  /** Inside the box with top-left corner (x, y) and the given size. */
  predicate InSizedBox(p: Point, x: real, y: real, width: real, height: real) {
    x <= p.x <= x + width && y <= p.y <= y + height
  }

  const StrokeHitThreshold: real := 8.0

  /** `isPointInElement`. */
  predicate HitTest(p: Point, e: Element) {
    match e.body
    case Rectangle => InBox(p, CornerBox(e))
    case Ellipse => EllipseHit(p, e)
    case Triangle => PointInTriangle(p, TriangleTop(e), TriangleLeft(e), TriangleRight(e))
    case Arrow => NearSegment(p, Point(e.x1, e.y1), Point(e.x2, e.y2), StrokeHitThreshold)
    case Freehand(ps) => AnySegmentNear(p, ps, StrokeHitThreshold)
    case Text(_, w, h, _) => InSizedBox(p, e.x1, e.y1, w, h)
    case Image(_, w, h) => InSizedBox(p, e.x1, e.y1, w, h)
    case Pin(_, _, w, h, _) => InSizedBox(p, e.x1, e.y1, w, h)
  }

  // -------------------------------------------------------- hit-test facts

  /** Rectangles and the box types are hit exactly inside their bounds. */
  lemma BoxHitIffInBounds(p: Point, e: Element)
    requires e.body.Rectangle? || IsBoxType(e.body)
    ensures HitTest(p, e) <==> InBox(p, Bounds(e))
  {
  }

  /** An ellipse dragged out with zero width or zero height is never hit. */
  lemma ZeroRadiusEllipseNeverHits(p: Point, e: Element)
    requires e.body.Ellipse? && (e.x1 == e.x2 || e.y1 == e.y2)
    ensures !HitTest(p, e)
  {
  }

  /** A proper ellipse is hit at the centre of its corner box. */
  lemma EllipseCentreHits(e: Element)
    requires e.body.Ellipse? && e.x1 != e.x2 && e.y1 != e.y2
    ensures HitTest(Point((e.x1 + e.x2) / 2.0, (e.y1 + e.y2) / 2.0), e)
  {
    var rx, ry := Abs(e.x2 - e.x1) / 2.0, Abs(e.y2 - e.y1) / 2.0;
    SquarePos(rx, rx, Sq(rx));
    SquarePos(ry, ry, Sq(ry));
  }

  /** For positive `r`, `q`: a / r + b / q <= k  iff  a q + b r <= k r q. */
  lemma ScaledSumLe(a: real, r: real, b: real, q: real, k: real)
    requires r > 0.0 && q > 0.0
    ensures a / r + b / q <= k <==> a * q + b * r <= k * (r * q)
  {
    var rq := r * q;
    MulPos(r, q);
    var lhs := a / r + b / q;
    assert (a / r) * r == a;
    assert (b / q) * q == b;
    assert lhs * rq == ((a / r) * r) * q + ((b / q) * q) * r;
    assert lhs * rq == a * q + b * r;
    if lhs <= k {
      MulNonneg(k - lhs, rq);
      assert (k - lhs) * rq == k * rq - lhs * rq;
    } else {
      MulPos(lhs - k, rq);
      assert (lhs - k) * rq == lhs * rq - k * rq;
    }
  }

  /** Division-free reading of the ellipse test: with centre (cx, cy) and
      radii rx, ry, the point hits iff
      (x - cx)^2 ry^2 + (y - cy)^2 rx^2 <= 1.05 rx^2 ry^2. */
  lemma {:induction false} EllipseHitIffScaled(p: Point, e: Element)
    requires e.body.Ellipse? && e.x1 != e.x2 && e.y1 != e.y2
    ensures var cx, cy := (e.x1 + e.x2) / 2.0, (e.y1 + e.y2) / 2.0;
            var rx, ry := Abs(e.x2 - e.x1) / 2.0, Abs(e.y2 - e.y1) / 2.0;
            HitTest(p, e) <==> Sq(p.x - cx) * Sq(ry) + Sq(p.y - cy) * Sq(rx) <= 1.05 * (Sq(rx) * Sq(ry))
  {
    var cx, cy := (e.x1 + e.x2) / 2.0, (e.y1 + e.y2) / 2.0;
    var rx, ry := Abs(e.x2 - e.x1) / 2.0, Abs(e.y2 - e.y1) / 2.0;
    SquarePos(rx, rx, Sq(rx));
    SquarePos(ry, ry, Sq(ry));
    assert HitTest(p, e) <==> Sq(p.x - cx) / Sq(rx) + Sq(p.y - cy) / Sq(ry) <= 1.05;
    ScaledSumLe(Sq(p.x - cx), Sq(rx), Sq(p.y - cy), Sq(ry), 1.05);
  }

  /** ax + u (cx - ax) + v (bx - ax) is a convex combination of ax, bx, cx
      when u, v >= 0 and u + v <= 1, so it stays between their bounds. */
  lemma ConvexCombinationBounds(ax: real, bx: real, cx: real, u: real, v: real, lo: real, hi: real)
    requires lo <= ax <= hi && lo <= bx <= hi && lo <= cx <= hi
    requires u >= 0.0 && v >= 0.0 && u + v <= 1.0
    ensures lo <= ax + u * (cx - ax) + v * (bx - ax) <= hi
  {
    var w := 1.0 - u - v;
    assert ax + u * (cx - ax) + v * (bx - ax) == w * ax + u * cx + v * bx;
    MulNonneg(w, ax - lo);
    MulNonneg(u, cx - lo);
    MulNonneg(v, bx - lo);
    assert w * ax + u * cx + v * bx - lo == w * (ax - lo) + u * (cx - lo) + v * (bx - lo);
    MulNonneg(w, hi - ax);
    MulNonneg(u, hi - cx);
    MulNonneg(v, hi - bx);
    assert hi - (w * ax + u * cx + v * bx) == w * (hi - ax) + u * (hi - cx) + v * (hi - bx);
  }

  /** A point written as a + u (c - a) + v (b - a) with u, v >= 0 and
      u + v <= 1 lies in every box holding a, b and c. */
  lemma ConvexPointInBox(p: Point, a: Point, b: Point, c: Point, u: real, v: real, box: Box)
    requires Decomposes(p.x - a.x, p.y - a.y, c.x - a.x, c.y - a.y, b.x - a.x, b.y - a.y, u, v)
    requires u >= 0.0 && v >= 0.0 && u + v <= 1.0
    requires InBox(a, box) && InBox(b, box) && InBox(c, box)
    ensures InBox(p, box)
  {
    ConvexCombinationBounds(a.x, b.x, c.x, u, v, box.minX, box.maxX);
    ConvexCombinationBounds(a.y, b.y, c.y, u, v, box.minY, box.maxY);
  }

  /** A triangle is only ever hit inside its bounds. */
  lemma {:induction false} TriangleHitInBounds(p: Point, e: Element)
    requires e.body.Triangle? && HitTest(p, e)
    ensures InBox(p, Bounds(e))
  {
    var a, b, c := TriangleTop(e), TriangleLeft(e), TriangleRight(e);
    var box := Bounds(e);
    assert box == CornerBox(e);
    assert InBox(a, box) && InBox(b, box) && InBox(c, box);
    var k := BarycentricOf(p, a, b, c);
    assert PointInTriangle(p, a, b, c);
    assert Denominator(k) != 0.0;
    var u, v := BaryU(k), BaryV(k);
    assert u >= 0.0 && v >= 0.0 && u + v <= 1.0;
    BarycentricSolves(p, a, b, c);
    ConvexPointInBox(p, a, b, c, u, v, box);
  }

  /** An arrow is hit exactly when some point of its segment is strictly
      closer than 8 to the pointer. */
  lemma ArrowHitIffNearSegmentPoint(p: Point, e: Element)
    requires e.body.Arrow?
    ensures HitTest(p, e) <==>
      SomeSegmentPointWithin(p, Point(e.x1, e.y1), Point(e.x2, e.y2), StrokeHitThreshold)
  {
    NearSegmentIffSomePointWithin(p, Point(e.x1, e.y1), Point(e.x2, e.y2), StrokeHitThreshold);
  }

  /** The recursive scan over consecutive pairs is the loop of the source:
      some index i with p near the segment ps[i], ps[i + 1]. */
  lemma {:induction false} AnySegmentNearIff(p: Point, ps: seq<Point>, threshold: real)
    ensures AnySegmentNear(p, ps, threshold)
        <==> exists i :: 0 <= i < |ps| - 1 && NearSegment(p, ps[i], ps[i + 1], threshold)
    decreases |ps|
  {
    if |ps| >= 2 {
      AnySegmentNearIff(p, ps[1..], threshold);
      if exists i :: 0 <= i < |ps| - 1 && NearSegment(p, ps[i], ps[i + 1], threshold) {
        var i :| 0 <= i < |ps| - 1 && NearSegment(p, ps[i], ps[i + 1], threshold);
        if i > 0 {
          assert ps[1..][i - 1] == ps[i] && ps[1..][i] == ps[i + 1];
        }
      }
      if AnySegmentNear(p, ps[1..], threshold) {
        var j :| 0 <= j < |ps[1..]| - 1 && NearSegment(p, ps[1..][j], ps[1..][j + 1], threshold);
        assert NearSegment(p, ps[j + 1], ps[j + 2], threshold);
      }
    }
  }

  /** A stroke is hit exactly when some point on one of its segments is
      strictly closer than 8 to the pointer; a one-point stroke never is. */
  lemma {:induction false} FreehandHitIff(p: Point, e: Element)
    requires e.body.Freehand?
    ensures HitTest(p, e) <==>
      exists i :: 0 <= i < |e.body.points| - 1
        && SomeSegmentPointWithin(p, e.body.points[i], e.body.points[i + 1], StrokeHitThreshold)
  {
    var ps := e.body.points;
    AnySegmentNearIff(p, ps, StrokeHitThreshold);
    forall i | 0 <= i < |ps| - 1
      ensures NearSegment(p, ps[i], ps[i + 1], StrokeHitThreshold)
          <==> SomeSegmentPointWithin(p, ps[i], ps[i + 1], StrokeHitThreshold)
    {
      NearSegmentIffSomePointWithin(p, ps[i], ps[i + 1], StrokeHitThreshold);
    }
  }

  /** A triangle whose three corners coincide is hit nowhere: its
      barycentric denominator is zero. */
  lemma DegenerateTriangleNeverHit(p: Point, a: Point)
    ensures !PointInTriangle(p, a, a, a)
  {
    var k := BarycentricOf(p, a, a, a);
    assert k.d00 == 0.0 && k.d01 == 0.0 && k.d11 == 0.0;
  }

  /** An element as pointer-down creates it (both corners at the pointer)
      is hit at the pointer when it is a rectangle, an arrow or a box type. */
  lemma NewElementHitAtAnchor(kind: Kind, x: real, y: real, color: string, strokeWidth: real,
                              opacity: real, id: Id, random: real)
    requires 0.0 <= random < 1.0
    requires kind in {RectangleKind, ArrowKind, TextKind, ImageKind, PinKind}
    ensures HitTest(Point(x, y), CreateElement(kind, x, y, Some(x), Some(y), color, strokeWidth, opacity, id, random))
  {
    var e := CreateElement(kind, x, y, Some(x), Some(y), color, strokeWidth, opacity, id, random);
    assert e.x2 == x && e.y2 == y;
    if kind == ArrowKind {
      assert DistSq(Point(x, y), Point(x, y)) == 0.0;
    }
  }

  /** A new ellipse, triangle or stroke (both corners at the pointer) is hit
      nowhere until it is dragged out. */
  lemma NewElementNeverHit(kind: Kind, x: real, y: real, color: string, strokeWidth: real,
                           opacity: real, id: Id, random: real, p: Point)
    requires 0.0 <= random < 1.0
    requires kind in {EllipseKind, TriangleKind, FreehandKind}
    ensures !HitTest(p, CreateElement(kind, x, y, Some(x), Some(y), color, strokeWidth, opacity, id, random))
  {
    var e := CreateElement(kind, x, y, Some(x), Some(y), color, strokeWidth, opacity, id, random);
    assert e.x2 == x && e.y2 == y;
    if kind == TriangleKind {
      assert TriangleTop(e) == Point(x, y) && TriangleLeft(e) == Point(x, y) && TriangleRight(e) == Point(x, y);
      DegenerateTriangleNeverHit(p, Point(x, y));
    }
  }
}
