/** Operations on the element list (src/ExcalidrawClone.jsx): finding the
    top-most hit, deleting, layer moves, the drawing and moving updates of
    the pointer handlers, the three eraser modes, and the image and text
    updates.

    The list is drawn front to back, so its last element is on top. An
    update that hands React a new array is `Replace`; one that returns the
    previous array itself is `Keep` (history tells the two apart). */
module Scene {
  import opened Common
  import opened Geometry
  import opened Elements

  datatype Update = Keep | Replace(elements: seq<Element>)

  function Apply(u: Update, es: seq<Element>): seq<Element> {
    match u
    case Keep => es
    case Replace(r) => r
  }

  function Ids(es: seq<Element>): (r: seq<Id>)
    ensures |r| == |es| && forall i :: 0 <= i < |es| ==> r[i] == es[i].id
  {
    seq(|es|, i requires 0 <= i < |es| => es[i].id)
  }

  predicate UniqueIds(es: seq<Element>) {
    forall i, j :: 0 <= i < j < |es| ==> es[i].id != es[j].id
  }

  /** `findIndex(el => el.id === id)`. */
  function FindIndex(es: seq<Element>, id: Id): (r: int)
    ensures -1 <= r < |es|
    ensures r == -1 <==> forall i :: 0 <= i < |es| ==> es[i].id != id
    ensures 0 <= r ==> es[r].id == id && forall j :: 0 <= j < r ==> es[j].id != id
  {
    if |es| == 0 then -1
    else if es[0].id == id then 0
    else
      var k := FindIndex(es[1..], id);
      if k == -1 then -1 else k + 1
  }

  /** `find(el => el.id === id)`. */
  function Find(es: seq<Element>, id: Id): (r: Option<Element>)
    ensures r.None? <==> forall i :: 0 <= i < |es| ==> es[i].id != id
    ensures r.Some? ==> r.value == es[FindIndex(es, id)]
  {
    var k := FindIndex(es, id);
    if k == -1 then None else Some(es[k])
  }

  /** `[...elements].reverse().find(hit)`: the index of the top-most element
      under the pointer. */
  function TopmostHit(es: seq<Element>, p: Point): (r: Option<nat>)
    ensures r.Some? ==> r.value < |es| && HitTest(p, es[r.value])
                        && forall j :: r.value < j < |es| ==> !HitTest(p, es[j])
    ensures r.None? ==> forall j :: 0 <= j < |es| ==> !HitTest(p, es[j])
  {
    if |es| == 0 then None
    else if HitTest(p, es[|es| - 1]) then Some(|es| - 1)
    else TopmostHit(es[..|es| - 1], p)
  }

  /** `filter(el => el.id !== id)`. */
  function RemoveId(es: seq<Element>, id: Id): (r: seq<Element>)
    ensures |r| <= |es|
    ensures forall i :: 0 <= i < |r| ==> r[i].id != id
  {
    if |es| == 0 then []
    else if es[0].id == id then RemoveId(es[1..], id)
    else [es[0]] + RemoveId(es[1..], id)
  }

  /** Removing by id keeps the order of what is left and keeps every element
      with another id. */
  lemma {:induction false} RemoveIdKeepsOthers(es: seq<Element>, id: Id)
    ensures IsSubsequence(RemoveId(es, id), es)
    ensures forall i :: 0 <= i < |es| && es[i].id != id ==> es[i] in RemoveId(es, id)
  {
    if |es| > 0 {
      RemoveIdKeepsOthers(es[1..], id);
      forall i | 1 <= i < |es| && es[i].id != id
        ensures es[i] in RemoveId(es, id)
      {
        assert es[i] == es[1..][i - 1];
      }
    }
  }

  /** With distinct ids, removing the id of element `i` removes exactly that
      element. */
  lemma {:induction false} RemoveIdIsDeleteAt(es: seq<Element>, i: nat)
    requires UniqueIds(es) && i < |es|
    ensures RemoveId(es, es[i].id) == es[..i] + es[i + 1..]
  {
    var id := es[i].id;
    var tail := es[1..];
    assert UniqueIds(tail) by {
      forall a, b | 0 <= a < b < |tail|
        ensures tail[a].id != tail[b].id
      {
        assert tail[a] == es[a + 1] && tail[b] == es[b + 1];
      }
    }
    if i == 0 {
      forall k | 0 <= k < |tail|
        ensures tail[k].id != id
      {
        assert tail[k] == es[k + 1];
      }
      RemoveAbsent(tail, id);
      assert RemoveId(es, id) == RemoveId(tail, id);
      assert es[..0] + es[1..] == tail;
    } else {
      assert es[0].id != id;
      assert RemoveId(es, id) == [es[0]] + RemoveId(tail, id);
      assert tail[i - 1] == es[i];
      RemoveIdIsDeleteAt(tail, i - 1);
      assert tail[..i - 1] == es[1..i];
      assert tail[i..] == es[i + 1..];
      assert [es[0]] + (es[1..i] + es[i + 1..]) == es[..i] + es[i + 1..];
    }
  }

  lemma {:induction false} RemoveAbsent(es: seq<Element>, id: Id)
    requires forall i :: 0 <= i < |es| ==> es[i].id != id
    ensures RemoveId(es, id) == es
  {
    if |es| > 0 {
      RemoveAbsent(es[1..], id);
      assert [es[0]] + es[1..] == es;
    }
  }

  /** Eraser in point mode: the top-most element under the pointer goes;
      a miss leaves the list alone. */
  function PointErase(es: seq<Element>, p: Point): Update {
    match TopmostHit(es, p)
    case None => Keep
    case Some(i) => Replace(RemoveId(es, es[i].id))
  }

  /** Point erase removes exactly the top-most hit, and nothing on a miss. */
  lemma PointEraseRemovesTopmost(es: seq<Element>, p: Point)
    requires UniqueIds(es)
    ensures match TopmostHit(es, p)
            case None => PointErase(es, p) == Keep
            case Some(i) => PointErase(es, p) == Replace(es[..i] + es[i + 1..])
  {
    if TopmostHit(es, p).Some? {
      RemoveIdIsDeleteAt(es, TopmostHit(es, p).value);
    }
  }

  /** Delete/Backspace with a selection: drop every element with that id. */
  function DeleteSelected(es: seq<Element>, selected: Id): (r: seq<Element>)
    ensures forall i :: 0 <= i < |r| ==> r[i].id != selected
  {
    RemoveId(es, selected)
  }

  /** Deleting removes the selected element and keeps every other one, in
      order. */
  lemma DeleteSelectedRemovesOne(es: seq<Element>, i: nat)
    requires UniqueIds(es) && i < |es|
    ensures DeleteSelected(es, es[i].id) == es[..i] + es[i + 1..]
  {
    RemoveIdIsDeleteAt(es, i);
  }

  // ---------------------------------------------------------- layer moves

  /** `moveLayer`: bring the selected element to the front (end of the list)
      or send it to the back (start); nothing happens without a selection
      or when the id is not in the list. */
  function MoveLayer(es: seq<Element>, selected: Option<Id>, toFront: bool): (u: Update)
    ensures u.Replace? <==> selected.Some? && FindIndex(es, selected.value) != -1
    ensures u.Replace? ==>
              var i := FindIndex(es, selected.value);
              var r := u.elements;
              && |r| == |es| && multiset(r) == multiset(es)
              && (toFront ==> r[|r| - 1] == es[i] && r[..|r| - 1] == es[..i] + es[i + 1..])
              && (!toFront ==> r[0] == es[i] && r[1..] == es[..i] + es[i + 1..])
  {
    if selected.None? then Keep
    else
      var i := FindIndex(es, selected.value);
      if i == -1 then Keep
      else
        var rest := es[..i] + es[i + 1..];
        assert es == es[..i] + [es[i]] + es[i + 1..];
        assert multiset(es) == multiset(es[..i]) + multiset([es[i]]) + multiset(es[i + 1..]);
        if toFront then
          assert (rest + [es[i]])[..|rest|] == rest;
          Replace(rest + [es[i]])
        else
          assert ([es[i]] + rest)[1..] == rest;
          Replace([es[i]] + rest)
  }

  /** Bringing the same element to the front twice gives the same order as
      doing it once. */
  lemma MoveToFrontIdempotent(es: seq<Element>, id: Id)
    requires UniqueIds(es) && FindIndex(es, id) != -1
    ensures var once := Apply(MoveLayer(es, Some(id), true), es);
            Apply(MoveLayer(once, Some(id), true), once) == once
  {
    var i := FindIndex(es, id);
    var once := Apply(MoveLayer(es, Some(id), true), es);
    assert once[|once| - 1].id == id;
    forall j | 0 <= j < |once| - 1
      ensures once[j].id != id
    {
      assert once[j] == (es[..i] + es[i + 1..])[j];
      if j < i {
        assert once[j] == es[j];
      } else {
        assert once[j] == es[j + 1];
      }
    }
    assert FindIndex(once, id) == |once| - 1;
    assert once[..|once| - 1] + [once[|once| - 1]] == once;
  }

  // -------------------------------------------------------------- drawing

  /** Smoothing factor of freehand strokes. */
  const Smoothing: real := 0.35

  /** A new stroke point needs the pointer more than this far from the last. */
  const StrokeStep: real := 2.0

  /** One pointer move while drawing, for one element: a stroke gains the
      point 35% of the way from its last point towards the pointer when the
      pointer is more than 2 away; any other shape takes the pointer as its
      second corner. */
  function DrawOne(e: Element, w: Point): Element {
    match e.body
    case Freehand(ps) =>
      var last := ps[|ps| - 1];
      if Beyond(DistSq(w, last), StrokeStep) then e.(body := Freehand(ps + [Lerp(last, w, Smoothing)]))
      else e
    case _ => e.(x2 := w.x, y2 := w.y)
  }

  /** The drawing branch of `handlePointerMove`: `map` over the list, updating
      the elements with the selected id. */
  function DrawStep(es: seq<Element>, selected: Id, w: Point): (r: seq<Element>)
    ensures |r| == |es| && Ids(r) == Ids(es)
    ensures forall i :: 0 <= i < |es| && es[i].id != selected ==> r[i] == es[i]
  {
    seq(|es|, i requires 0 <= i < |es| => if es[i].id == selected then DrawOne(es[i], w) else es[i])
  }

  /** A shape being drawn (not a stroke) gets the pointer as its second
      corner, so a rectangle or an arrow is hit at the pointer. */
  lemma DrawStepFollowsPointer(es: seq<Element>, selected: Id, w: Point, i: nat)
    requires i < |es| && es[i].id == selected && !es[i].body.Freehand?
    ensures var e := DrawStep(es, selected, w)[i];
            && e.x2 == w.x && e.y2 == w.y && e.x1 == es[i].x1 && e.y1 == es[i].y1
            && ((e.body.Rectangle? || e.body.Arrow?) ==> HitTest(w, e))
  {
    var e := DrawStep(es, selected, w)[i];
    if e.body.Arrow? {
      var a, b := Point(e.x1, e.y1), Point(e.x2, e.y2);
      if DistSq(a, b) != 0.0 {
        assert Lerp(a, b, 1.0) == w;
        ProjectionIsClosest(w, a, b, 1.0);
        DistSqNonneg(w, Lerp(a, b, ProjectionParam(w, a, b)));
      }
    }
  }

  lemma ScaledSquare(k: real, a: real)
    ensures Sq(k * a) == k * k * Sq(a)
  {
  }

  /** The smoothed point is 35% of the way to the pointer, so its squared
      distance to the pointer is 0.65^2 of the last point's. */
  lemma SmoothedPointCloser(last: Point, w: Point)
    ensures DistSq(w, Lerp(last, w, Smoothing)) == 0.4225 * DistSq(w, last)
    ensures Beyond(DistSq(w, last), StrokeStep) ==> DistSq(w, Lerp(last, w, Smoothing)) < DistSq(w, last)
  {
    var q := Lerp(last, w, Smoothing);
    assert q.x - w.x == 0.65 * (last.x - w.x);
    assert q.y - w.y == 0.65 * (last.y - w.y);
    ScaledSquare(0.65, last.x - w.x);
    ScaledSquare(0.65, last.y - w.y);
    var d := DistSq(w, last);
    assert DistSq(w, q) == 0.4225 * d;
  }

  /** A stroke grows by the smoothed point exactly when the pointer is more
      than 2 from its last point, and is otherwise left as it is. */
  lemma DrawStepExtendsStroke(es: seq<Element>, selected: Id, w: Point, i: nat)
    requires i < |es| && es[i].id == selected && es[i].body.Freehand?
    ensures var ps := es[i].body.points;
            var last := ps[|ps| - 1];
            var e := DrawStep(es, selected, w)[i];
            && e.body.Freehand?
            && (Beyond(DistSq(w, last), StrokeStep) ==> e.body.points == ps + [Lerp(last, w, Smoothing)])
            && (!Beyond(DistSq(w, last), StrokeStep) ==> e == es[i])
  {
  }

  // --------------------------------------------------------------- moving

  function ShiftPoints(ps: Stroke, dx: real, dy: real): (r: Stroke)
    ensures |r| == |ps| && forall i :: 0 <= i < |ps| ==> r[i] == Point(ps[i].x + dx, ps[i].y + dy)
  {
    seq(|ps|, i requires 0 <= i < |ps| => Point(ps[i].x + dx, ps[i].y + dy))
  }

  /** Move one element by (dx, dy) from `original`, the copy captured at
      pointer-down: every stroke point, only the top-left corner of the box
      types, or both corners of the other shapes. A stroke whose captured
      copy is not a stroke cannot arise (the copy is the same element); it is
      left as it is. */
  function MoveFrom(e: Element, original: Element, dx: real, dy: real): Element {
    match e.body
    case Freehand(_) =>
      if original.body.Freehand? then e.(body := Freehand(ShiftPoints(original.body.points, dx, dy))) else e
    case Text(_, _, _, _) => e.(x1 := original.x1 + dx, y1 := original.y1 + dy)
    case Image(_, _, _) => e.(x1 := original.x1 + dx, y1 := original.y1 + dy)
    case Pin(_, _, _, _, _) => e.(x1 := original.x1 + dx, y1 := original.y1 + dy)
    case _ => e.(x1 := original.x1 + dx, y1 := original.y1 + dy,
                 x2 := original.x2 + dx, y2 := original.y2 + dy)
  }

  /** The moving branch of `handlePointerMove`. */
  function MoveStep(es: seq<Element>, selected: Id, original: Element, dx: real, dy: real): (r: seq<Element>)
    ensures |r| == |es| && Ids(r) == Ids(es)
    ensures forall i :: 0 <= i < |es| && es[i].id != selected ==> r[i] == es[i]
  {
    seq(|es|, i requires 0 <= i < |es| => if es[i].id == selected then MoveFrom(es[i], original, dx, dy) else es[i])
  }

  function ShiftBox(b: Box, dx: real, dy: real): Box {
    Box(b.minX + dx, b.maxX + dx, b.minY + dy, b.maxY + dy)
  }

  /** Width and height of a box-type body. */
  function Size(b: Body): (real, real)
    requires IsBoxType(b)
  {
    match b
    case Text(_, w, h, _) => (w, h)
    case Image(_, w, h) => (w, h)
    case Pin(_, _, w, h, _) => (w, h)
  }

  /** The element and its captured copy have the same shape (the same type,
      and the same size for the box types). */
  predicate SameShape(e: Element, original: Element) {
    && KindOf(e.body) == KindOf(original.body)
    && (IsBoxType(e.body) ==> IsBoxType(original.body) && Size(e.body) == Size(original.body))
  }

  lemma {:induction false} MinOfShift(s: seq<real>, t: seq<real>, d: real)
    requires |s| == |t| > 0 && forall i :: 0 <= i < |s| ==> t[i] == s[i] + d
    ensures MinOf(t) == MinOf(s) + d
    decreases |s|
  {
    if |s| > 1 {
      MinOfShift(s[1..], t[1..], d);
    }
  }

  lemma {:induction false} MaxOfShift(s: seq<real>, t: seq<real>, d: real)
    requires |s| == |t| > 0 && forall i :: 0 <= i < |s| ==> t[i] == s[i] + d
    ensures MaxOf(t) == MaxOf(s) + d
    decreases |s|
  {
    if |s| > 1 {
      MaxOfShift(s[1..], t[1..], d);
    }
  }

  lemma StrokeBoundsShift(ps: Stroke, dx: real, dy: real)
    ensures var qs := ShiftPoints(ps, dx, dy);
            && MinOf(Xs(qs)) == MinOf(Xs(ps)) + dx && MaxOf(Xs(qs)) == MaxOf(Xs(ps)) + dx
            && MinOf(Ys(qs)) == MinOf(Ys(ps)) + dy && MaxOf(Ys(qs)) == MaxOf(Ys(ps)) + dy
  {
    var qs := ShiftPoints(ps, dx, dy);
    MinOfShift(Xs(ps), Xs(qs), dx);
    MaxOfShift(Xs(ps), Xs(qs), dx);
    MinOfShift(Ys(ps), Ys(qs), dy);
    MaxOfShift(Ys(ps), Ys(qs), dy);
  }

  /** Moving shifts the bounds of the captured copy by exactly (dx, dy). */
  lemma MoveShiftsBounds(e: Element, original: Element, dx: real, dy: real)
    requires SameShape(e, original)
    ensures Bounds(MoveFrom(e, original, dx, dy)) == ShiftBox(Bounds(original), dx, dy)
  {
    if e.body.Freehand? {
      MoveShiftsStrokeBounds(e, original, dx, dy);
    } else if IsBoxType(e.body) {
      MoveShiftsSizedBounds(e, original, dx, dy);
    } else {
      MoveShiftsCornerBounds(e, original, dx, dy);
    }
  }

  lemma MoveShiftsStrokeBounds(e: Element, original: Element, dx: real, dy: real)
    requires e.body.Freehand? && original.body.Freehand?
    ensures Bounds(MoveFrom(e, original, dx, dy)) == ShiftBox(Bounds(original), dx, dy)
  {
    var ps := original.body.points;
    var qs := ShiftPoints(ps, dx, dy);
    var m := MoveFrom(e, original, dx, dy);
    assert m.body == Freehand(qs);
    assert Bounds(m) == Box(MinOf(Xs(qs)), MaxOf(Xs(qs)), MinOf(Ys(qs)), MaxOf(Ys(qs)));
    assert Bounds(original) == Box(MinOf(Xs(ps)), MaxOf(Xs(ps)), MinOf(Ys(ps)), MaxOf(Ys(ps)));
    StrokeBoundsShift(ps, dx, dy);
  }

  lemma MoveShiftsSizedBounds(e: Element, original: Element, dx: real, dy: real)
    requires IsBoxType(e.body) && IsBoxType(original.body) && Size(e.body) == Size(original.body)
    ensures Bounds(MoveFrom(e, original, dx, dy)) == ShiftBox(Bounds(original), dx, dy)
  {
  }

  lemma MoveShiftsCornerBounds(e: Element, original: Element, dx: real, dy: real)
    requires !e.body.Freehand? && !IsBoxType(e.body) && !original.body.Freehand? && !IsBoxType(original.body)
    ensures Bounds(MoveFrom(e, original, dx, dy)) == ShiftBox(Bounds(original), dx, dy)
  {
  }

  /** Moves are computed from the captured copy, so only the latest pointer
      position counts. */
  lemma MoveLatestWins(es: seq<Element>, selected: Id, original: Element, dx1: real, dy1: real, dx2: real, dy2: real)
    ensures MoveStep(MoveStep(es, selected, original, dx1, dy1), selected, original, dx2, dy2)
         == MoveStep(es, selected, original, dx2, dy2)
  {
  }

  /** Pressing on the selected element without dragging leaves it in place. */
  lemma MoveByZeroIsIdentity(e: Element)
    ensures MoveFrom(e, e, 0.0, 0.0) == e
  {
    if e.body.Freehand? {
      assert ShiftPoints(e.body.points, 0.0, 0.0) == e.body.points;
    }
  }

  // ---------------------------------------------------------- brush erase

  /** The stroke points farther than `radius` from the pointer, in order. */
  function Survivors(ps: seq<Point>, w: Point, radius: real): (r: seq<Point>)
    ensures |r| <= |ps|
    ensures forall i :: 0 <= i < |r| ==> Beyond(DistSq(w, r[i]), radius)
  {
    if |ps| == 0 then []
    else if Beyond(DistSq(w, ps[0]), radius) then [ps[0]] + Survivors(ps[1..], w, radius)
    else Survivors(ps[1..], w, radius)
  }

  /** The survivors are exactly the points outside the eraser, in stroke
      order, and nothing is lost unless some point is inside it. */
  lemma {:induction false} SurvivorsExact(ps: seq<Point>, w: Point, radius: real)
    ensures IsSubsequence(Survivors(ps, w, radius), ps)
    ensures forall i :: 0 <= i < |ps| && Beyond(DistSq(w, ps[i]), radius) ==> ps[i] in Survivors(ps, w, radius)
    ensures |Survivors(ps, w, radius)| == |ps| <==> forall i :: 0 <= i < |ps| ==> Beyond(DistSq(w, ps[i]), radius)
    ensures |Survivors(ps, w, radius)| == |ps| ==> Survivors(ps, w, radius) == ps
  {
    if |ps| > 0 {
      SurvivorsExact(ps[1..], w, radius);
      var r := Survivors(ps, w, radius);
      var t := Survivors(ps[1..], w, radius);
      assert forall i :: 1 <= i < |ps| ==> ps[i] == ps[1..][i - 1];
      if Beyond(DistSq(w, ps[0]), radius) {
        assert r == [ps[0]] + t && r[1..] == t;
      } else {
        assert r == t;
        assert |r| < |ps|;
      }
    }
  }

  /** The centre of an element's bounds, which the brush tests for every
      element that is not a stroke. */
  function Centre(e: Element): Point {
    var b := Bounds(e);
    Point((b.minX + b.maxX) / 2.0, (b.minY + b.maxY) / 2.0)
  }

  /** What survives of one element under the brush, and whether the brush
      touched it: a stroke keeps its points outside the radius and survives
      only with at least two of them (four coordinates); any other element
      survives whole when its bounds centre is outside the radius. */
  function EraseOne(e: Element, w: Point, radius: real): (Option<Element>, bool) {
    match e.body
    case Freehand(ps) =>
      var s := Survivors(ps, w, radius);
      var touched := |s| < |ps|;
      if |s| >= 2 then (Some(e.(body := Freehand(s))), touched)
      else if |s| > 0 then (None, true)
      else (None, touched)
    case _ =>
      if Beyond(DistSq(w, Centre(e)), radius) then (Some(e), false) else (None, true)
  }

  /** The element-by-element pass of the brush eraser: the kept elements in
      order, and whether anything changed. */
  function BrushErase(es: seq<Element>, w: Point, radius: real): (seq<Element>, bool) {
    if |es| == 0 then ([], false)
    else
      var (k, c) := EraseOne(es[0], w, radius);
      var (rest, c') := BrushErase(es[1..], w, radius);
      (if k.Some? then [k.value] + rest else rest, c || c')
  }

  /** The brush's state update: the previous array itself when nothing
      changed, a new one otherwise. */
  function BrushStep(es: seq<Element>, w: Point, radius: real): (u: Update)
    ensures u.Keep? <==> !BrushErase(es, w, radius).1
  {
    var (kept, changed) := BrushErase(es, w, radius);
    if changed then Replace(kept) else Keep
  }

  /** How an element looks after the brush, when it survives. */
  predicate Trimmed(k: Element, e: Element, w: Point, radius: real) {
    if e.body.Freehand? then
      var s := Survivors(e.body.points, w, radius);
      |s| >= 2 && k == e.(body := Freehand(s))
    else
      k == e && Beyond(DistSq(w, Centre(e)), radius)
  }

  /** One element survives the brush exactly as `Trimmed` says, and it is
      reported untouched exactly when it survives unchanged. */
  lemma EraseOneSpec(e: Element, w: Point, radius: real)
    ensures var (k, touched) := EraseOne(e, w, radius);
            && (forall x :: k == Some(x) <==> Trimmed(x, e, w, radius))
            && (!touched <==> k == Some(e))
  {
    if e.body.Freehand? {
      var ps := e.body.points;
      SurvivorsExact(ps, w, radius);
      var s := Survivors(ps, w, radius);
      if |s| == |ps| {
        assert e.(body := Freehand(s)) == e;
      }
    }
  }

  /** The number of elements plus the number of stroke points. */
  function Weight(es: seq<Element>): nat {
    if |es| == 0 then 0
    else 1 + (if es[0].body.Freehand? then |es[0].body.points| else 0) + Weight(es[1..])
  }

  /** The brush keeps the order of the survivors and invents no id. */
  lemma {:induction false} BrushEraseKeepsOrder(es: seq<Element>, w: Point, radius: real)
    ensures IsSubsequence(Ids(BrushErase(es, w, radius).0), Ids(es))
  {
    if |es| > 0 {
      var kept := BrushErase(es, w, radius).0;
      var k := EraseOne(es[0], w, radius).0;
      var rest := BrushErase(es[1..], w, radius).0;
      BrushEraseKeepsOrder(es[1..], w, radius);
      assert Ids(es)[1..] == Ids(es[1..]);
      if k.Some? {
        EraseOneSpec(es[0], w, radius);
        assert kept == [k.value] + rest && kept[1..] == rest;
        assert Ids(kept)[1..] == Ids(rest);
        assert Ids(kept)[0] == Ids(es)[0];
      } else {
        assert kept == rest;
      }
    }
  }

  /** Every element the brush keeps is the trimmed version of an input
      element. */
  lemma {:induction false} BrushEraseOnlyTrimmed(es: seq<Element>, w: Point, radius: real)
    ensures forall j :: 0 <= j < |BrushErase(es, w, radius).0| ==>
              exists i :: 0 <= i < |es| && Trimmed(BrushErase(es, w, radius).0[j], es[i], w, radius)
  {
    if |es| > 0 {
      var kept := BrushErase(es, w, radius).0;
      var k := EraseOne(es[0], w, radius).0;
      var rest := BrushErase(es[1..], w, radius).0;
      BrushEraseOnlyTrimmed(es[1..], w, radius);
      EraseOneSpec(es[0], w, radius);
      var off := if k.Some? then 1 else 0;
      assert kept == (if k.Some? then [k.value] else []) + rest;
      forall j | 0 <= j < |kept|
        ensures exists i :: 0 <= i < |es| && Trimmed(kept[j], es[i], w, radius)
      {
        if j < off {
          assert Trimmed(kept[j], es[0], w, radius);
        } else {
          assert kept[j] == rest[j - off];
          var jj := j - off;
          assert 0 <= jj < |rest|;
          assert exists i :: 0 <= i < |es[1..]| && Trimmed(rest[jj], es[1..][i], w, radius);
          var i :| 0 <= i < |es[1..]| && Trimmed(rest[j - off], es[1..][i], w, radius);
          assert es[1..][i] == es[i + 1];
          assert Trimmed(kept[j], es[i + 1], w, radius);
        }
      }
      assert kept == BrushErase(es, w, radius).0;
    } else {
      assert BrushErase(es, w, radius).0 == [];
    }
  }

  /** Every trimmed version of an input element is kept. */
  lemma {:induction false} BrushEraseKeepsTrimmed(es: seq<Element>, w: Point, radius: real)
    ensures forall i, x :: 0 <= i < |es| && Trimmed(x, es[i], w, radius) ==> x in BrushErase(es, w, radius).0
  {
    if |es| > 0 {
      var kept := BrushErase(es, w, radius).0;
      var k := EraseOne(es[0], w, radius).0;
      var rest := BrushErase(es[1..], w, radius).0;
      BrushEraseKeepsTrimmed(es[1..], w, radius);
      EraseOneSpec(es[0], w, radius);
      assert kept == (if k.Some? then [k.value] else []) + rest;
      forall i, x | 0 <= i < |es| && Trimmed(x, es[i], w, radius)
        ensures x in kept
      {
        if i > 0 {
          assert es[i] == es[1..][i - 1];
          assert x in rest;
        } else {
          assert k == Some(x);
        }
      }
    }
  }

  /** The flag is raised exactly when the result differs from the input, so
      an unchanged pass hands back the previous array; a change always
      removes an element or a stroke point. */
  lemma {:induction false} BrushEraseChangedIff(es: seq<Element>, w: Point, radius: real)
    ensures var (kept, changed) := BrushErase(es, w, radius);
            && (changed <==> kept != es)
            && Weight(kept) <= Weight(es)
            && (changed ==> Weight(kept) < Weight(es))
  {
    if |es| > 0 {
      var (kept, changed) := BrushErase(es, w, radius);
      var (k, c) := EraseOne(es[0], w, radius);
      var (rest, c') := BrushErase(es[1..], w, radius);
      BrushEraseChangedIff(es[1..], w, radius);
      EraseOneSpec(es[0], w, radius);
      EraseOneWeight(es[0], w, radius);
      assert Weight(es) == Weight([es[0]]) + Weight(es[1..]);
      if k.Some? {
        assert kept == [k.value] + rest && kept[1..] == rest;
        assert Weight(kept) == Weight([k.value]) + Weight(rest);
      } else {
        assert kept == rest;
      }
      if !changed {
        assert kept == [es[0]] + es[1..];
      }
    }
  }

  lemma EraseOneWeight(e: Element, w: Point, radius: real)
    ensures var (k, touched) := EraseOne(e, w, radius);
            && (k.Some? ==> Weight([k.value]) <= Weight([e]))
            && (k.Some? && touched ==> Weight([k.value]) < Weight([e]))
  {
    if e.body.Freehand? {
      SurvivorsExact(e.body.points, w, radius);
    }
  }

  // ----------------------------------------------------------- area erase

  /** The rectangle spanned by the two corners of an eraser drag. */
  function DragBox(a: Point, b: Point): (box: Box)
    ensures box.minX <= box.maxX && box.minY <= box.maxY
    ensures InBox(a, box) && InBox(b, box)
  {
    Box(Min(a.x, b.x), Max(a.x, b.x), Min(a.y, b.y), Max(a.y, b.y))
  }

  /** The overlap test of the shape eraser as written: its last comparison
      is against the area's top edge where the bottom edge belongs. */
  predicate OverlapsAsWritten(b: Box, area: Box) {
    !(b.maxX < area.minX || b.minX > area.maxX || b.maxY < area.minY || b.minY > area.minY)
  }

  /** The overlap test of two boxes: they are not separated along either
      axis. */
  predicate Overlaps(b: Box, area: Box) {
    !(b.maxX < area.minX || b.minX > area.maxX || b.maxY < area.minY || b.minY > area.maxY)
  }

  /** The elements whose bounds pass `keep`, in order. */
  function KeepWhere(es: seq<Element>, keep: Box -> bool): (r: seq<Element>)
    ensures |r| <= |es|
    ensures forall i :: 0 <= i < |r| ==> keep(Bounds(r[i]))
  {
    if |es| == 0 then []
    else if keep(Bounds(es[0])) then [es[0]] + KeepWhere(es[1..], keep)
    else KeepWhere(es[1..], keep)
  }

  /** `KeepWhere` keeps the order and drops exactly the failing elements. */
  lemma {:induction false} KeepWhereExact(es: seq<Element>, keep: Box -> bool)
    ensures IsSubsequence(KeepWhere(es, keep), es)
    ensures forall i :: 0 <= i < |es| && keep(Bounds(es[i])) ==> es[i] in KeepWhere(es, keep)
  {
    if |es| > 0 {
      KeepWhereExact(es[1..], keep);
      assert forall i :: 1 <= i < |es| ==> es[i] == es[1..][i - 1];
      if keep(Bounds(es[0])) {
        assert KeepWhere(es, keep)[1..] == KeepWhere(es[1..], keep);
      }
    }
  }

  /** The shape eraser as written: on release it keeps the elements its
      overlap test rejects. */
  function AreaErase(es: seq<Element>, from: Point, to: Point): seq<Element> {
    var area := DragBox(from, to);
    KeepWhere(es, b => !OverlapsAsWritten(b, area))
  }

  /** The shape eraser as intended: it removes every element whose bounds
      overlap the dragged area. */
  function AreaEraseIntended(es: seq<Element>, from: Point, to: Point): seq<Element> {
    var area := DragBox(from, to);
    KeepWhere(es, b => !Overlaps(b, area))
  }

  /** As written, an element is erased exactly when its bounds overlap the
      area AND its top edge is at or above the area's top edge; so an
      element lying wholly inside the area, below its top edge, survives. */
  lemma AreaEraseAsWrittenRemoves(es: seq<Element>, from: Point, to: Point)
    ensures var area := DragBox(from, to);
            var r := AreaErase(es, from, to);
            && IsSubsequence(r, es)
            && (forall i :: 0 <= i < |r| ==> !(Overlaps(Bounds(r[i]), area) && Bounds(r[i]).minY <= area.minY))
            && (forall i :: 0 <= i < |es| && !(Overlaps(Bounds(es[i]), area) && Bounds(es[i]).minY <= area.minY) ==> es[i] in r)
  {
    var area := DragBox(from, to);
    KeepWhereExact(es, b => !OverlapsAsWritten(b, area));
  }

  /** A concrete case: a rectangle from (10, 10) to (20, 20) inside an area
      dragged from (0, 0) to (100, 100) is not erased. */
  lemma AreaEraseMissesInsideElement()
    ensures var e := Element("a", 10.0, 10.0, 20.0, 20.0, 0, "#000000", 2.0, 1.0, Rectangle);
            && Bounds(e) == Box(10.0, 20.0, 10.0, 20.0)
            && AreaErase([e], Point(0.0, 0.0), Point(100.0, 100.0)) == [e]
            && AreaEraseIntended([e], Point(0.0, 0.0), Point(100.0, 100.0)) == []
  {
    var e := Element("a", 10.0, 10.0, 20.0, 20.0, 0, "#000000", 2.0, 1.0, Rectangle);
    var area := DragBox(Point(0.0, 0.0), Point(100.0, 100.0));
    assert Bounds(e) == Box(10.0, 20.0, 10.0, 20.0);
    assert !OverlapsAsWritten(Bounds(e), area);
    assert Overlaps(Bounds(e), area);
  }

  /** The intended eraser removes exactly the elements whose bounds overlap
      the area, and keeps the others in order. */
  lemma AreaEraseIntendedRemoves(es: seq<Element>, from: Point, to: Point)
    ensures var area := DragBox(from, to);
            var r := AreaEraseIntended(es, from, to);
            && IsSubsequence(r, es)
            && (forall i :: 0 <= i < |r| ==> !Overlaps(Bounds(r[i]), area))
            && (forall i :: 0 <= i < |es| && !Overlaps(Bounds(es[i]), area) ==> es[i] in r)
  {
    var area := DragBox(from, to);
    KeepWhereExact(es, b => !Overlaps(b, area));
  }

  /** For well-formed boxes the overlap test means the boxes share a point. */
  lemma OverlapsIffSharedPoint(b: Box, area: Box)
    requires b.minX <= b.maxX && b.minY <= b.maxY
    requires area.minX <= area.maxX && area.minY <= area.maxY
    ensures Overlaps(b, area) <==> exists p :: InBox(p, b) && InBox(p, area)
  {
    if Overlaps(b, area) {
      var p := Point(Max(b.minX, area.minX), Max(b.minY, area.minY));
      assert InBox(p, b) && InBox(p, area);
    }
  }

  // ----------------------------------------------------- images and text

  /** The image-upload result: the selected image gets the data URL. The
      source spreads `imageData` into whatever element is selected; on other
      types the field is never read, so they are modelled as unchanged. */
  function SetImageData(es: seq<Element>, selected: Id, data: string): (r: seq<Element>)
    ensures |r| == |es| && Ids(r) == Ids(es)
    ensures forall i :: 0 <= i < |es| && !(es[i].id == selected && es[i].body.Image?) ==> r[i] == es[i]
  {
    seq(|es|, i requires 0 <= i < |es| =>
      if es[i].id == selected && es[i].body.Image? then es[i].(body := es[i].body.(imageData := Some(data))) else es[i])
  }

  /** After the upload the selected image shows the data, keeping its place
      and size. */
  lemma SetImageDataShows(es: seq<Element>, selected: Id, data: string, i: nat)
    requires i < |es| && es[i].id == selected && es[i].body.Image?
    ensures var e := SetImageData(es, selected, data)[i];
            && e.body.Image? && e.body.imageData == Some(data)
            && Bounds(e) == Bounds(es[i]) && e.id == es[i].id
  {
  }

  /** Whether an element carries editable text. */
  predicate HasText(e: Element) {
    e.body.Text? || e.body.Pin?
  }

  /** The textarea's change handler: the element being edited takes the new
      text (on types without text the field is never read). */
  function SetText(es: seq<Element>, editing: Id, text: string): (r: seq<Element>)
    ensures |r| == |es| && Ids(r) == Ids(es)
    ensures forall i :: 0 <= i < |es| && !(es[i].id == editing && HasText(es[i])) ==> r[i] == es[i]
  {
    seq(|es|, i requires 0 <= i < |es| =>
      if es[i].id == editing && HasText(es[i]) then es[i].(body := es[i].body.(text := text)) else es[i])
  }

  /** The textarea's blur handler: the element takes the final text and
      leaves editing. */
  function CommitText(es: seq<Element>, editing: Id, text: string): (r: seq<Element>)
    ensures |r| == |es| && Ids(r) == Ids(es)
    ensures forall i :: 0 <= i < |es| && !(es[i].id == editing && HasText(es[i])) ==> r[i] == es[i]
  {
    seq(|es|, i requires 0 <= i < |es| =>
      if es[i].id == editing && HasText(es[i]) then es[i].(body := es[i].body.(text := text, isEditing := false)) else es[i])
  }

  /** Typing then leaving the textarea gives the same board as leaving it
      with the final text; committing twice is committing once; and the
      committed element shows the text and is no longer editing. */
  lemma CommitTextSpec(es: seq<Element>, editing: Id, typed: string, text: string)
    ensures CommitText(SetText(es, editing, typed), editing, text) == CommitText(es, editing, text)
    ensures CommitText(CommitText(es, editing, text), editing, text) == CommitText(es, editing, text)
    ensures forall i :: 0 <= i < |es| && es[i].id == editing && HasText(es[i]) ==>
              var e := CommitText(es, editing, text)[i];
              e.body.text == text && !e.body.isEditing && Bounds(e) == Bounds(es[i])
  {
  }
}
