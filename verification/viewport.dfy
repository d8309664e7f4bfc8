/** The camera of the infinite canvas (src/ExcalidrawClone.jsx): the
    screen/world maps, wheel zoom to the cursor, the zoom buttons, drag and
    keyboard panning, and the optional grid snap.

    A world point `w` is drawn at screen position `w * zoom + (x, y)`. */
module Viewport {
  import opened Common
  import opened Geometry

  datatype Camera = Camera(x: real, y: real, zoom: real)

  const MinZoom: real := 0.1
  const MaxZoom: real := 3.0

  /** The camera the board starts with when nothing is persisted. */
  const InitialCamera: Camera := Camera(0.0, 0.0, 1.0)

  /** `screenToWorld`. */
  function ScreenToWorld(s: Point, c: Camera): (w: Point)
    requires c.zoom > 0.0
    ensures w.x * c.zoom + c.x == s.x && w.y * c.zoom + c.y == s.y
  {
    Point((s.x - c.x) / c.zoom, (s.y - c.y) / c.zoom)
  }

  /** The world-to-screen map used to place the text editing overlay. */
  function WorldToScreen(w: Point, c: Camera): Point {
    Point(w.x * c.zoom + c.x, w.y * c.zoom + c.y)
  }

  lemma ScreenToWorldInverts(w: Point, c: Camera)
    requires c.zoom > 0.0
    ensures ScreenToWorld(WorldToScreen(w, c), c) == w
  {
    var r := ScreenToWorld(WorldToScreen(w, c), c);
    assert r.x * c.zoom == w.x * c.zoom;
    assert r.y * c.zoom == w.y * c.zoom;
    Cancel(r.x, w.x, c.zoom);
    Cancel(r.y, w.y, c.zoom);
  }

  lemma WorldToScreenInverts(s: Point, c: Camera)
    requires c.zoom > 0.0
    ensures WorldToScreen(ScreenToWorld(s, c), c) == s
  {
    var w := ScreenToWorld(s, c);
    var r := WorldToScreen(w, c);
    assert r.x == s.x && r.y == s.y;
  }

  // ------------------------------------------------------------- zooming

  /** `Math.max(0.1, Math.min(3, z))`. */
  function ClampZoom(z: real): (r: real)
    ensures MinZoom <= r <= MaxZoom
    ensures MinZoom <= z <= MaxZoom ==> r == z
  {
    Max(MinZoom, Min(MaxZoom, z))
  }

  /** One wheel notch: scroll down (`deltaY > 0`) zooms out by 0.9, anything
      else zooms in by 1.1, and the camera moves so that the world point
      under the cursor `s` stays under it. */
  function WheelZoom(c: Camera, s: Point, deltaY: real): (r: Camera)
    requires c.zoom > 0.0
    ensures MinZoom <= r.zoom <= MaxZoom
    ensures ScreenToWorld(s, r) == ScreenToWorld(s, c)
    ensures MinZoom <= c.zoom <= MaxZoom ==>
              (if deltaY > 0.0 then r.zoom <= c.zoom else r.zoom >= c.zoom)
  {
    var factor := if deltaY > 0.0 then 0.9 else 1.1;
    var newZoom := ClampZoom(c.zoom * factor);
    var before := ScreenToWorld(s, c);
    var after := ScreenToWorld(s, Camera(c.x, c.y, newZoom));
    var r := Camera(c.x + (after.x - before.x) * newZoom, c.y + (after.y - before.y) * newZoom, newZoom);
    WheelKeepsCursorPoint(c.x, s.x, c.zoom, newZoom, r.x);
    WheelKeepsCursorPoint(c.y, s.y, c.zoom, newZoom, r.y);
    ZoomFactorDirection(c.zoom, factor);
    r
  }

  /** One coordinate of the wheel-zoom camera update: with
      cam' = cam + ((s - cam) / z' - (s - cam) / z) z', the cursor maps to
      the same world coordinate before and after. */
  lemma WheelKeepsCursorPoint(cam: real, s: real, z: real, z': real, cam': real)
    requires z > 0.0 && z' > 0.0
    requires cam' == cam + ((s - cam) / z' - (s - cam) / z) * z'
    ensures (s - cam') / z' == (s - cam) / z
  {
    var w := (s - cam) / z;
    var w' := (s - cam) / z';
    assert w' * z' == s - cam;
    assert cam' == cam + w' * z' - w * z';
    assert s - cam' == w * z';
  }

  lemma ZoomFactorDirection(z: real, factor: real)
    requires z > 0.0
    ensures factor <= 1.0 ==> z * factor <= z
    ensures factor >= 1.0 ==> z * factor >= z
  {
    if factor <= 1.0 {
      MulNonneg(z, 1.0 - factor);
    } else {
      MulNonneg(z, factor - 1.0);
    }
  }

  /** The zoom-out button: 0.1 less, never below the minimum. */
  function ZoomOut(c: Camera): (r: Camera)
    ensures r.x == c.x && r.y == c.y
    ensures r.zoom >= MinZoom
    ensures c.zoom >= MinZoom ==> r.zoom <= c.zoom
  {
    c.(zoom := Max(MinZoom, c.zoom - 0.1))
  }

  /** The zoom-in button: 0.1 more, never above the maximum. */
  function ZoomIn(c: Camera): (r: Camera)
    ensures r.x == c.x && r.y == c.y
    ensures r.zoom <= MaxZoom
    ensures c.zoom <= MaxZoom ==> r.zoom >= c.zoom
    ensures c.zoom > 0.0 ==> r.zoom > 0.0
  {
    c.(zoom := Min(MaxZoom, c.zoom + 0.1))
  }

  /** The reset button (the percentage label). */
  function ZoomReset(c: Camera): (r: Camera)
    ensures r.x == c.x && r.y == c.y && r.zoom == 1.0
  {
    c.(zoom := 1.0)
  }

  /** Away from the limits the two buttons undo each other. */
  lemma ZoomButtonsInverse(c: Camera)
    ensures 0.2 <= c.zoom <= MaxZoom ==> ZoomIn(ZoomOut(c)) == c
    ensures MinZoom <= c.zoom <= MaxZoom - 0.1 ==> ZoomOut(ZoomIn(c)) == c
  {
  }

  // ------------------------------------------------------------- panning

  /** Drag panning: the current camera moved to the position captured at
      pointer-down plus the pointer's screen displacement; the zoom is the
      current one. */
  function DragPan(c: Camera, startX: real, startY: real, startScreen: Point, s: Point): (r: Camera)
    ensures r.zoom == c.zoom
  {
    c.(x := startX + (s.x - startScreen.x), y := startY + (s.y - startScreen.y))
  }

  /** While the zoom stays what it was at pointer-down, the world point
      grabbed then stays under the pointer. */
  lemma DragPanKeepsGrabbedPoint(c: Camera, start: Camera, startScreen: Point, s: Point)
    requires start.zoom > 0.0 && c.zoom == start.zoom
    ensures ScreenToWorld(s, DragPan(c, start.x, start.y, startScreen, s)) == ScreenToWorld(startScreen, start)
  {
  }

  datatype Direction = Up | Down | Left | Right

  /** The panning keys: arrows and w/a/s/d in either case. */
  function PanDirection(key: string): (d: Option<Direction>)
    ensures d.Some? <==> key in {"ArrowUp", "ArrowDown", "ArrowLeft", "ArrowRight",
                                 "w", "a", "s", "d", "W", "A", "S", "D"}
    ensures d == Some(Up) <==> key in {"ArrowUp", "w", "W"}
    ensures d == Some(Down) <==> key in {"ArrowDown", "s", "S"}
    ensures d == Some(Left) <==> key in {"ArrowLeft", "a", "A"}
    ensures d == Some(Right) <==> key in {"ArrowRight", "d", "D"}
  {
    if key == "ArrowUp" || key == "w" || key == "W" then Some(Up)
    else if key == "ArrowDown" || key == "s" || key == "S" then Some(Down)
    else if key == "ArrowLeft" || key == "a" || key == "A" then Some(Left)
    else if key == "ArrowRight" || key == "d" || key == "D" then Some(Right)
    else None
  }

  /** Keyboard panning by `120 / zoom` along one axis. */
  function KeyPan(c: Camera, d: Direction): (r: Camera)
    requires c.zoom > 0.0
    ensures r.zoom == c.zoom
  {
    var step := 120.0 / c.zoom;
    match d
    case Up => c.(y := c.y - step)
    case Down => c.(y := c.y + step)
    case Left => c.(x := c.x - step)
    case Right => c.(x := c.x + step)
  }

  function Opposite(d: Direction): Direction {
    match d
    case Up => Down
    case Down => Up
    case Left => Right
    case Right => Left
  }

  /** A key pan shifts every world point on screen by exactly `120 / zoom`
      pixels in the key's direction: the content follows the key, and the
      view moves the opposite way. */
  lemma KeyPanShiftsScreen(c: Camera, d: Direction, w: Point)
    requires c.zoom > 0.0
    ensures var s, s' := WorldToScreen(w, c), WorldToScreen(w, KeyPan(c, d));
            var step := 120.0 / c.zoom;
            s' == match d
                  case Up => Point(s.x, s.y - step)
                  case Down => Point(s.x, s.y + step)
                  case Left => Point(s.x - step, s.y)
                  case Right => Point(s.x + step, s.y)
  {
    var s, s' := WorldToScreen(w, c), WorldToScreen(w, KeyPan(c, d));
    var step := 120.0 / c.zoom;
    match d
    case Up => assert s'.y == s.y - step;
    case Down => assert s'.y == s.y + step;
    case Left => assert s'.x == s.x - step;
    case Right => assert s'.x == s.x + step;
  }

  /** The opposite key takes a key pan back. */
  lemma KeyPanUndone(c: Camera, d: Direction)
    requires c.zoom > 0.0
    ensures KeyPan(KeyPan(c, d), Opposite(d)) == c
  {
  }

  // ---------------------------------------------------------------- snap

  const GridSize: real := 40.0

  /** `Math.round`: the nearest integer, halves rounded up. */
  function Round(v: real): (k: int)
    ensures k as real - 0.5 <= v < k as real + 0.5
  {
    (v + 0.5).Floor
  }

  /** `maybeSnap` with snapping on: `Math.round(v / 40) * 40`. */
  function Snap(v: real): (r: real)
    ensures -GridSize / 2.0 <= v - r < GridSize / 2.0
  {
    Round(v / GridSize) as real * GridSize
  }

  /** `maybeSnap`. */
  function MaybeSnap(snapToGrid: bool, v: real): real {
    if snapToGrid then Snap(v) else v
  }

  /** The only multiple of the grid size strictly between -40 and 40 is 0. */
  lemma SmallGridMultiple(d: int)
    requires -GridSize < d as real * GridSize < GridSize
    ensures d == 0
  {
    assert -1.0 < d as real < 1.0;
  }

  /** Snapping a grid line leaves it alone. */
  lemma SnapGridLine(k: int)
    ensures Snap(k as real * GridSize) == k as real * GridSize
  {
    assert k as real * GridSize / GridSize == k as real;
    assert (k as real + 0.5).Floor == k;
  }

  /** The snapped value is THE grid line nearest to `v` (ties go up), and
      snapping a grid line leaves it alone. */
  lemma SnapIsNearestGridLine(v: real, k: int)
    requires -GridSize / 2.0 <= v - k as real * GridSize < GridSize / 2.0
    ensures Snap(v) == k as real * GridSize
    ensures Snap(k as real * GridSize) == k as real * GridSize
  {
    var j := Round(v / GridSize);
    assert Snap(v) == j as real * GridSize;
    var d := k - j;
    assert d as real * GridSize == (v - j as real * GridSize) - (v - k as real * GridSize);
    SmallGridMultiple(d);
    SnapGridLine(k);
  }

  lemma SnapIdempotent(v: real)
    ensures Snap(Snap(v)) == Snap(v)
  {
    SnapIsNearestGridLine(v, Round(v / GridSize));
  }
}
