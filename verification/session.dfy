/** The whiteboard's interaction state (src/ExcalidrawClone.jsx) as one
    record, and every handler as a pure transition on it.

    A handler's state updates are applied to the record, then the history
    effect runs (`Step`). The element array, the history and the snapshots
    live in the `Board`; the rest is the gesture and the panels' state.

    Two places in the handlers do not do what their comments say (see
    `Variant`): the session runs the code as written, or with those two
    places corrected. */
module Session {
  import opened Common
  import opened Geometry
  import opened Elements
  import opened Viewport
  import opened Scene
  import opened Tags
  import opened Snapshots
  import opened History
  import opened Boards

  datatype Tool = Select | Pan | Eraser | Create(kind: Kind)

  datatype EraserMode = PointMode | BrushMode | ShapeMode

  /** `action`. */
  datatype Action = Idle | Panning | Drawing | Moving | Erasing | EraserShape

  /** `startPoint`: what pointer-down captured for the gesture. */
  datatype Start =
    | NoStart
    | PanStart(screen: Point, cameraX: real, cameraY: real)
    | WorldStart(world: Point, lastErasedX: Option<real>, lastErasedY: Option<real>)
    | MoveStart(world: Point, element: Element)

  /** Run the handlers as written, or with the brush gate and the area
      eraser's overlap test corrected. */
  datatype Variant = AsWritten | Corrected

  datatype Session = Session(
    variant: Variant,
    board: Board,
    camera: Camera,
    tool: Tool,
    action: Action,
    start: Start,
    selected: Option<Id>,
    editing: Option<Id>,
    editGuard: bool,
    eraserMode: EraserMode,
    eraserSize: real,
    dragArea: Option<(Point, Point)>,
    snapToGrid: bool,
    strokeColor: string,
    strokeWidth: real,
    strokeOpacity: real,
    tagFilter: string)

  /** The canvas's pointer events. `newId` and `random` of a press stand
      for `generateId()` and `Math.random()`. */
  datatype PointerInput =
    | PointerDown(screen: Point, button: int, shift: bool, newId: Id, random: real)
    | PointerMove(screen: Point)
    | PointerUp
    | DoubleClick(screen: Point)

  /** The view and tool controls: the wheel, the tool bar, the eraser
      panel, the grid toggle, the zoom buttons and the tag filter. */
  datatype ControlInput =
    | Wheel(screen: Point, deltaY: real)
    | ToolChosen(tool: Tool)
    | EraserModeChosen(mode: EraserMode)
    | EraserSizeChosen(size: real)
    | SnapToggled
    | ZoomOutClicked
    | ZoomResetClicked
    | ZoomInClicked
    | TagFilterChosen(tag: string)

  /** The panel inputs that change elements: the layer buttons, the image
      loader, the text overlay and the tag panel. */
  datatype EditInput =
    | LayerClicked(toFront: bool)
    | ImageLoaded(data: string)
    | TextTyped(text: string)
    | TextBlurred(text: string)
    | TagSubmitted(typed: string)
    | TagRemoved(tag: string)
    | TagRaised(tag: string)
    | TagLowered(tag: string)

  /** The snapshot panel. */
  datatype SnapshotInput =
    | SnapshotSaved(name: string, id: Id, timestamp: string)
    | SnapshotLoaded(index: nat)
    | SnapshotDeleted(id: Id)

  /** The user's inputs; `ctrl` is Ctrl or Meta. */
  datatype Event =
    | Pointer(pointer: PointerInput)
    | KeyDown(key: string, ctrl: bool, shift: bool)
    | Control(control: ControlInput)
    | Edit(edit: EditInput)
    | SnapshotPanel(snapshot: SnapshotInput)

  /** What the browser can deliver: `Math.random()` is in [0, 1). */
  predicate ValidEvent(ev: Event) {
    ev.Pointer? && ev.pointer.PointerDown? ==> 0.0 <= ev.pointer.random < 1.0
  }

  /** Ctrl+Z (without Shift): the one event that rewinds the history. The
      toolbar's undo button runs the same `undo`, so it is the same
      transition and has no event of its own. */
  predicate IsUndo(ev: Event) {
    ev.KeyDown? && ev.ctrl && ev.key == "z" && !ev.shift
  }

  /** The state at start-up, from the persisted elements and camera. */
  function Init(variant: Variant, elements: seq<Element>, camera: Camera): (s: Session)
    requires camera.zoom > 0.0
    ensures Inv(s) && s.board.elements == elements && s.board.history.entries == [Entry(s.board.stamp, elements)]
    ensures s.action == Idle && s.tool == Select && s.selected.None? && s.editing.None?
  {
    Session(variant, InitialBoard(elements), camera, Select, Idle, NoStart, None, None, false,
            PointMode, 20.0, None, false, "#ffffff", 2.0, 1.0, "")
  }

  // ------------------------------------------------------------ invariant

  /** The gesture state fits the action. */
  predicate StartFits(a: Action, st: Start) {
    match a
    case Idle => true
    case Panning => st.PanStart?
    case Moving => st.MoveStart?
    case _ => st.WorldStart?
  }

  /** What holds after every handler: the board is coherent, the edit guard
      is down, the cameras can be inverted and the gesture state fits. */
  predicate Sound(s: Session) {
    && Coherent(s.board)
    && !s.editGuard
    && s.camera.zoom > 0.0
    && (forall n :: n in s.board.snapshots ==> n.camera.zoom > 0.0)
    && StartFits(s.action, s.start)
  }

  /** What holds between events: also, the history has caught up. */
  predicate Inv(s: Session) {
    Sound(s) && Synced(s.board)
  }

  /** A handler leaves the history to the effect. */
  predicate HistoryKept(s: Session, r: Session) {
    r.board.history == s.board.history
  }

  // ------------------------------------------------------- element writes

  /** `setElements`. */
  function SetElements(s: Session, u: Update): (r: Session)
    ensures HistoryKept(s, r) && r.board.elements == Apply(u, s.board.elements)
    ensures u.Keep? ==> r == s
  {
    s.(board := Write(s.board, u))
  }

  lemma SetElementsSound(s: Session, u: Update)
    requires Sound(s)
    ensures Sound(SetElements(s, u))
  {
    WriteCoherent(s.board, u);
  }

  /** One event: the handler, then the history effect. */
  function Step(s: Session, ev: Event): (r: Session)
    requires Inv(s) && ValidEvent(ev)
    ensures Inv(r)
  {
    var h := Handle(s, ev);
    HandleSound(s, ev);
    SettleSyncs(h.board, h.editGuard);
    h.(board := Settle(h.board, h.editGuard))
  }

  // -------------------------------------------------------------- pointer

  /** The world point under the pointer, snapped when the grid is on. */
  function WorldAt(s: Session, screen: Point): (w: Point)
    requires s.camera.zoom > 0.0
    ensures !s.snapToGrid ==> w == ScreenToWorld(screen, s.camera)
  {
    var w := ScreenToWorld(screen, s.camera);
    Point(MaybeSnap(s.snapToGrid, w.x), MaybeSnap(s.snapToGrid, w.y))
  }

  /** The tools that draw by dragging; the others place an element. */
  predicate Drags(kind: Kind) {
    kind in {RectangleKind, EllipseKind, TriangleKind, ArrowKind, FreehandKind}
  }

  /** The element a pointer-down with a creating tool adds. */
  function Created(s: Session, kind: Kind, w: Point, newId: Id, random: real): (e: Element)
    requires 0.0 <= random < 1.0
    ensures e.id == newId && KindOf(e.body) == kind
  {
    CreateElement(kind, w.x, w.y, Some(w.x), Some(w.y), s.strokeColor, s.strokeWidth, s.strokeOpacity, newId, random)
  }

  /** `handlePointerDown`. */
  function OnPointerDown(s: Session, screen: Point, button: int, shift: bool, newId: Id, random: real): (r: Session)
    requires s.camera.zoom > 0.0 && 0.0 <= random < 1.0
    ensures HistoryKept(s, r) && r.camera == s.camera && r.variant == s.variant
    ensures s.editing.Some? ==> r == s
    ensures r.action != s.action ==> StartFits(r.action, r.start)
  {
    var w := WorldAt(s, screen);
    if s.editing.Some? then s
    else if button == 1 || shift || s.tool == Pan then
      s.(action := Panning, start := PanStart(screen, s.camera.x, s.camera.y))
    else match s.tool
      case Eraser =>
        (match s.eraserMode
         case PointMode =>
           if TopmostHit(s.board.elements, w).Some? then SetElements(s, PointErase(s.board.elements, w)).(selected := None)
           else s
         case BrushMode => s.(action := Erasing, start := WorldStart(w, None, None))
         case ShapeMode => s.(action := EraserShape, start := WorldStart(w, None, None), dragArea := Some((w, w))))
      case Select =>
        var grabbed := if s.selected.Some? then Find(s.board.elements, s.selected.value) else None;
        if grabbed.Some? && HitTest(w, grabbed.value) then
          s.(action := Moving, start := MoveStart(w, grabbed.value))
        else
          (match TopmostHit(s.board.elements, w)
           case Some(i) => s.(selected := Some(s.board.elements[i].id))
           case None => s.(selected := None, action := Panning, start := PanStart(screen, s.camera.x, s.camera.y)))
      case Create(kind) =>
        var s' := SetElements(s, Replace(s.board.elements + [Created(s, kind, w, newId, random)])).(selected := Some(newId));
        if Drags(kind) then s'.(action := Drawing, start := WorldStart(w, None, None))
        else s'.(editing := if kind == TextKind || kind == PinKind then Some(newId) else s.editing, tool := Select)
      case Pan => s
  }

  /** The brush's throttle as written: the distance from the last erase
      point, where a missing (or zero) coordinate falls back to the pointer
      itself, must exceed `3 / zoom`. */
  predicate BrushGateAsWritten(st: Start, w: Point, zoom: real)
    requires st.WorldStart? && zoom > 0.0
  {
    var last := Point(OrElse(st.lastErasedX, w.x), OrElse(st.lastErasedY, w.y));
    Beyond(DistSq(w, last), 3.0 / zoom)
  }

  /** The throttle as intended: measured from the last erase point, or from
      the press point before the first erase. */
  predicate BrushGateCorrected(st: Start, w: Point, zoom: real)
    requires st.WorldStart? && zoom > 0.0
  {
    var last := if st.lastErasedX.Some? && st.lastErasedY.Some? then Point(st.lastErasedX.value, st.lastErasedY.value)
                else st.world;
    Beyond(DistSq(w, last), 3.0 / zoom)
  }

  /** The gate the session's variant uses. */
  predicate BrushGate(v: Variant, st: Start, w: Point, zoom: real)
    requires st.WorldStart? && zoom > 0.0
  {
    if v == AsWritten then BrushGateAsWritten(st, w, zoom) else BrushGateCorrected(st, w, zoom)
  }

  /** As written, the gate stays shut until an erase has happened, and an
      erase can only happen through the gate: the brush never erases. */
  lemma BrushGateAsWrittenNeverOpens(st: Start, w: Point, zoom: real)
    requires st.WorldStart? && zoom > 0.0 && st.lastErasedX.None? && st.lastErasedY.None?
    ensures !BrushGateAsWritten(st, w, zoom)
  {
    assert DistSq(w, Point(w.x, w.y)) == 0.0;
  }

  /** Corrected, the first erase comes once the pointer is more than
      `3 / zoom` away from the press point, and not before. */
  lemma BrushGateCorrectedOpens(st: Start, w: Point, zoom: real)
    requires st.WorldStart? && zoom > 0.0 && st.lastErasedX.None?
    ensures BrushGateCorrected(st, w, zoom) <==> Beyond(DistSq(w, st.world), 3.0 / zoom)
  {
  }

  /** `handlePointerMove` (the eraser hover highlight is not modelled). */
  function OnPointerMove(s: Session, screen: Point): (r: Session)
    requires s.camera.zoom > 0.0
    ensures HistoryKept(s, r) && r.camera.zoom == s.camera.zoom
    ensures r.action == s.action && r.tool == s.tool && r.selected == s.selected && r.editing == s.editing
    ensures r.start.WorldStart? <==> s.start.WorldStart?
    ensures s.editing.Some? ==> r == s
  {
    var w := WorldAt(s, screen);
    if s.editing.Some? then s
    else match s.action
    case Panning =>
      if s.start.PanStart? then
        s.(camera := DragPan(s.camera, s.start.cameraX, s.start.cameraY, s.start.screen, screen))
      else s
    case Drawing =>
      if s.selected.Some? then SetElements(s, Replace(DrawStep(s.board.elements, s.selected.value, w))) else s
    case Moving =>
      if s.selected.Some? && s.start.MoveStart? then
        SetElements(s, Replace(MoveStep(s.board.elements, s.selected.value, s.start.element,
                                        w.x - s.start.world.x, w.y - s.start.world.y)))
      else s
    case Erasing =>
      if s.tool == Eraser && s.start.WorldStart? && BrushGate(s.variant, s.start, w, s.camera.zoom) then
        SetElements(s, BrushStep(s.board.elements, w, s.eraserSize / s.camera.zoom))
          .(start := s.start.(lastErasedX := Some(w.x), lastErasedY := Some(w.y)))
      else s
    case EraserShape =>
      if s.start.WorldStart? then s.(dragArea := Some((s.start.world, w))) else s
    case Idle => s
  }

  /** The area eraser of the session's variant. */
  function EraseArea(v: Variant, es: seq<Element>, a: Point, b: Point): seq<Element>
  {
    if v == AsWritten then AreaErase(es, a, b) else AreaEraseIntended(es, a, b)
  }

  /** `handlePointerUp`, also bound to pointer-leave. The drawn element is
      deselected (after a 150 ms timer in the source). */
  function OnPointerUp(s: Session): (r: Session)
    ensures HistoryKept(s, r) && r.camera == s.camera
    ensures s.editing.Some? ==> r == s
    ensures s.editing.None? ==> r.action == Idle && r.start == NoStart
    ensures s.action != EraserShape ==> r.board == s.board
  {
    if s.editing.Some? then s
    else
    var s1 := if s.action == Drawing then s.(selected := None) else s;
    var s2 :=
      if s.action == EraserShape && s.dragArea.Some? then
        SetElements(s1, Replace(EraseArea(s.variant, s.board.elements, s.dragArea.value.0, s.dragArea.value.1)))
          .(dragArea := None)
      else s1;
    s2.(action := Idle, start := NoStart)
  }

  /** `handleDoubleClick`: the top-most text or pin under the pointer (not
      snapped) is selected and opened for editing. */
  function OnDoubleClick(s: Session, screen: Point): (r: Session)
    requires s.camera.zoom > 0.0
    ensures r.board == s.board && r.camera == s.camera && r.action == s.action
    ensures r.editing != s.editing ==> r.editing == r.selected && EditorOpen(r)
  {
    if s.tool != Select || s.editing.Some? then s
    else match TopmostHit(s.board.elements, ScreenToWorld(screen, s.camera))
      case Some(i) =>
        var e := s.board.elements[i];
        if HasText(e) then
          assert Find(s.board.elements, e.id).Some?;
          s.(selected := Some(e.id), editing := Some(e.id))
        else s
      case None => s
  }

  // ------------------------------------------------------------ keyboard

  /** `undo`: step back in the history and show that entry, deselecting;
      at the first entry nothing happens. */
  function OnUndo(s: Session): (r: Session)
    requires Valid(s.board.history)
    ensures r.camera == s.camera && r.action == s.action && r.board.snapshots == s.board.snapshots
    ensures s.board.history.index == 0 ==> r == s
    ensures s.board.history.index > 0 ==>
              && r.selected.None? && r.board.history.entries == s.board.history.entries
              && r.board.history.index == s.board.history.index - 1
              && Entry(r.board.stamp, r.board.elements) == s.board.history.entries[s.board.history.index - 1]
  {
    var (b, moved) := UndoBoard(s.board);
    if moved then s.(board := b, selected := None) else s
  }

  /** The window's keydown handler: Ctrl+Z undoes; the arrows and w/a/s/d
      pan (also with Ctrl, and also while editing); Escape leaves text
      editing; Delete and Backspace remove the selection unless editing.
      The other shortcuts open dialogs or files and are not modelled; their
      tests do not stop the handler, so Ctrl+S both opens the snapshot
      dialog (not modelled) and pans like S. Ctrl+Z, the pan
      keys, Escape and Delete/Backspace are different keys, so at most one
      of the modelled branches applies. */
  function OnKeyDown(s: Session, key: string, ctrl: bool, shift: bool): (r: Session)
    requires Valid(s.board.history) && s.camera.zoom > 0.0
    ensures r.action == s.action && r.camera.zoom == s.camera.zoom && r.board.snapshots == s.board.snapshots
    ensures !(ctrl && key == "z" && !shift) ==> HistoryKept(s, r)
  {
    if ctrl && key == "z" && !shift then OnUndo(s)
    else match PanDirection(key)
      case Some(d) => s.(camera := KeyPan(s.camera, d))
      case None =>
        if key == "Escape" && s.editing.Some? then s.(editing := None)
        else if (key == "Delete" || key == "Backspace") && s.selected.Some? && s.editing.None? then
          SetElements(s, Replace(DeleteSelected(s.board.elements, s.selected.value))).(selected := None)
        else s
  }

  // ---------------------------------------------------------- the panels

  /** The text overlay is shown while the element being edited exists. */
  predicate EditorOpen(s: Session) {
    s.editing.Some? && Find(s.board.elements, s.editing.value).Some?
  }

  /** `saveSnapshot`: a blank name is refused. */
  function OnSnapshotSaved(s: Session, name: string, id: Id, timestamp: string): (r: Session)
    ensures HistoryKept(s, r) && r.board.elements == s.board.elements && r.camera == s.camera
    ensures AllSpace(name) <==> r == s
    ensures !AllSpace(name) ==> var n := |s.board.snapshots|;
              && |r.board.snapshots| == n + 1 && r.board.snapshots[..n] == s.board.snapshots
              && r.board.snapshots[n].elements == s.board.elements && r.board.snapshots[n].camera == s.camera
              && r.board.snapshots[n].name == name
  {
    match SaveSnapshot(s.board, name, id, timestamp, s.camera)
    case None => s
    case Some(b) => s.(board := b)
  }

  /** `loadSnapshot`: the snapshot's array and camera. */
  function OnSnapshotLoaded(s: Session, index: nat): (r: Session)
    ensures HistoryKept(s, r) && r.action == s.action
    ensures index < |s.board.snapshots| ==>
              r.board.elements == s.board.snapshots[index].elements && r.camera == s.board.snapshots[index].camera
  {
    if index < |s.board.snapshots| then
      s.(board := LoadSnapshot(s.board, index), camera := s.board.snapshots[index].camera)
    else s
  }

  /** The state updates of one event. */
  function Handle(s: Session, ev: Event): (r: Session)
    requires Sound(s) && ValidEvent(ev)
    ensures !IsUndo(ev) ==> HistoryKept(s, r)
  {
    match ev
    case Pointer(p) => OnPointer(s, p)
    case KeyDown(key, ctrl, shift) => OnKeyDown(s, key, ctrl, shift)
    case Control(c) => OnControl(s, c)
    case Edit(e) => OnEdit(s, e)
    case SnapshotPanel(n) => OnSnapshotPanel(s, n)
  }

  /** The canvas's handlers. While a text is being edited the canvas has
      no handlers at all, so every pointer event is ignored. */
  function OnPointer(s: Session, p: PointerInput): (r: Session)
    requires s.camera.zoom > 0.0 && (p.PointerDown? ==> 0.0 <= p.random < 1.0)
    ensures HistoryKept(s, r)
  {
    match p
    case PointerDown(screen, button, shift, newId, random) => OnPointerDown(s, screen, button, shift, newId, random)
    case PointerMove(screen) => OnPointerMove(s, screen)
    case PointerUp => OnPointerUp(s)
    case DoubleClick(screen) => OnDoubleClick(s, screen)
  }

  /** The view and tool controls. Choosing a tool other than select drops
      the selection. The wheel listener sits on the canvas, which takes no
      pointer events while a text is being edited, so a wheel turn is then
      ignored. */
  function OnControl(s: Session, c: ControlInput): (r: Session)
    requires s.camera.zoom > 0.0
    ensures r.board == s.board && r.action == s.action && r.start == s.start && r.editing == s.editing
    ensures c.Wheel? && s.editing.Some? ==> r == s
    ensures c.Wheel? && s.editing.None? ==> r.camera == WheelZoom(s.camera, c.screen, c.deltaY)
  {
    match c
    case Wheel(screen, deltaY) => if s.editing.Some? then s else s.(camera := WheelZoom(s.camera, screen, deltaY))
    case ToolChosen(t) => s.(tool := t, selected := if t != Select then None else s.selected)
    case EraserModeChosen(m) => s.(eraserMode := m)
    case EraserSizeChosen(size) => s.(eraserSize := size)
    case SnapToggled => s.(snapToGrid := !s.snapToGrid)
    case ZoomOutClicked => s.(camera := ZoomOut(s.camera))
    case ZoomResetClicked => s.(camera := ZoomReset(s.camera))
    case ZoomInClicked => s.(camera := ZoomIn(s.camera))
    case TagFilterChosen(tag) => s.(tagFilter := tag)
  }

  /** The panel inputs that change elements. The overlay's blur (also
      Escape inside it) commits the text and closes the overlay. */
  function OnEdit(s: Session, e: EditInput): (r: Session)
    ensures HistoryKept(s, r) && r.camera == s.camera && r.action == s.action && r.start == s.start
    ensures r.board.snapshots == s.board.snapshots
  {
    var r := SetElements(s, EditUpdate(s, e));
    if e.TextBlurred? && EditorOpen(s) then r.(editGuard := false, editing := None) else r
  }

  /** The element update of a panel input. */
  function EditUpdate(s: Session, e: EditInput): Update
  {
    var es := s.board.elements;
    match e
    case LayerClicked(toFront) => MoveLayer(es, s.selected, toFront)
    case ImageLoaded(data) => if s.selected.Some? then Replace(SetImageData(es, s.selected.value, data)) else Keep
    case TextTyped(text) => if EditorOpen(s) then Replace(SetText(es, s.editing.value, text)) else Keep
    case TextBlurred(text) => if EditorOpen(s) then Replace(CommitText(es, s.editing.value, text)) else Keep
    case TagSubmitted(typed) =>
      (match AddTag(es, s.selected, typed)
       case Some(next) => Replace(next)
       case None => Keep)
    // The tag buttons act on the selected pin; without a selection the
    // panel lists no tags, so there is nothing to press.
    case TagRemoved(tag) => if s.selected.Some? then Replace(RemoveTag(es, s.selected.value, tag)) else Keep
    case TagRaised(tag) => if s.selected.Some? then Replace(MoveTagUp(es, s.selected.value, tag)) else Keep
    case TagLowered(tag) => if s.selected.Some? then Replace(MoveTagDown(es, s.selected.value, tag)) else Keep
  }

  /** The snapshot panel's buttons. */
  function OnSnapshotPanel(s: Session, n: SnapshotInput): (r: Session)
    ensures HistoryKept(s, r) && r.action == s.action && r.start == s.start
  {
    match n
    case SnapshotSaved(name, id, timestamp) => OnSnapshotSaved(s, name, id, timestamp)
    case SnapshotLoaded(index) => OnSnapshotLoaded(s, index)
    case SnapshotDeleted(id) => s.(board := DeleteSnapshot(s.board, id))
  }

  /** The elements drawn on the canvas. */
  function Visible(s: Session): (r: seq<Element>)
    ensures s.tagFilter == "" ==> r == s.board.elements
    ensures IsSubsequence(r, s.board.elements)
  {
    FilterByTag(s.board.elements, s.tagFilter)
  }

  // ------------------------------------------------------ invariant proof

  lemma PointerDownSound(s: Session, screen: Point, button: int, shift: bool, newId: Id, random: real)
    requires Sound(s) && 0.0 <= random < 1.0
    ensures Sound(OnPointerDown(s, screen, button, shift, newId, random))
  {
    if s.editing.None? && !(button == 1 || shift || s.tool == Pan) {
      match s.tool
      case Eraser => EraserDownSound(s, screen, button, shift, newId, random);
      case Create(kind) => CreateDownSound(s, screen, button, shift, newId, random);
      case _ =>
    }
  }

  lemma EraserDownSound(s: Session, screen: Point, button: int, shift: bool, newId: Id, random: real)
    requires Sound(s) && 0.0 <= random < 1.0 && s.editing.None? && !(button == 1 || shift) && s.tool == Eraser
    ensures Sound(OnPointerDown(s, screen, button, shift, newId, random))
  {
    SetElementsSound(s, PointErase(s.board.elements, WorldAt(s, screen)));
  }

  lemma CreateDownSound(s: Session, screen: Point, button: int, shift: bool, newId: Id, random: real)
    requires Sound(s) && 0.0 <= random < 1.0 && s.editing.None? && !(button == 1 || shift) && s.tool.Create?
    ensures Sound(OnPointerDown(s, screen, button, shift, newId, random))
  {
    var kind := s.tool.kind;
    SetElementsSound(s, Replace(s.board.elements + [Created(s, kind, WorldAt(s, screen), newId, random)]));
  }

  lemma PointerMoveSound(s: Session, screen: Point)
    requires Sound(s)
    ensures Sound(OnPointerMove(s, screen))
  {
    var w := WorldAt(s, screen);
    match s.action
    case Drawing =>
      if s.selected.Some? {
        SetElementsSound(s, Replace(DrawStep(s.board.elements, s.selected.value, w)));
      }
    case Moving =>
      if s.selected.Some? && s.start.MoveStart? {
        SetElementsSound(s, Replace(MoveStep(s.board.elements, s.selected.value, s.start.element,
                                             w.x - s.start.world.x, w.y - s.start.world.y)));
      }
    case Erasing => SetElementsSound(s, BrushStep(s.board.elements, w, s.eraserSize / s.camera.zoom));
    case _ =>
  }

  lemma PointerUpSound(s: Session)
    requires Sound(s)
    ensures Sound(OnPointerUp(s))
  {
    if s.action == EraserShape && s.dragArea.Some? {
      var s1 := if s.action == Drawing then s.(selected := None) else s;
      SetElementsSound(s1, Replace(EraseArea(s.variant, s.board.elements, s.dragArea.value.0, s.dragArea.value.1)));
    }
  }

  lemma KeyDownSound(s: Session, key: string, ctrl: bool, shift: bool)
    requires Sound(s)
    ensures Sound(OnKeyDown(s, key, ctrl, shift))
  {
    if ctrl && key == "z" && !shift {
      UndoCoherent(s.board);
    } else if s.selected.Some? {
      SetElementsSound(s, Replace(DeleteSelected(s.board.elements, s.selected.value)));
    }
  }

  lemma PointerSound(s: Session, p: PointerInput)
    requires Sound(s) && (p.PointerDown? ==> 0.0 <= p.random < 1.0)
    ensures Sound(OnPointer(s, p))
  {
    match p
    case PointerDown(screen, button, shift, newId, random) => PointerDownSound(s, screen, button, shift, newId, random);
    case PointerMove(screen) => PointerMoveSound(s, screen);
    case PointerUp => PointerUpSound(s);
    case DoubleClick(_) =>
  }

  lemma EditSound(s: Session, e: EditInput)
    requires Sound(s)
    ensures Sound(OnEdit(s, e))
  {
    SetElementsSound(s, EditUpdate(s, e));
  }

  lemma SnapshotPanelSound(s: Session, n: SnapshotInput)
    requires Sound(s)
    ensures Sound(OnSnapshotPanel(s, n))
  {
    match n
    case SnapshotSaved(name, id, timestamp) =>
      SaveCoherent(s.board, name, id, timestamp, s.camera);
      var r := OnSnapshotSaved(s, name, id, timestamp);
      if !AllSpace(name) {
        var k := |s.board.snapshots|;
        assert r.board.snapshots == s.board.snapshots + [r.board.snapshots[k]];
      }
    case SnapshotLoaded(index) =>
      if index < |s.board.snapshots| {
        LoadCoherent(s.board, index);
        assert s.board.snapshots[index] in s.board.snapshots;
      }
    case SnapshotDeleted(id) =>
  }

  /** Every handler keeps the session sound. */
  lemma HandleSound(s: Session, ev: Event)
    requires Sound(s) && ValidEvent(ev)
    ensures Sound(Handle(s, ev))
  {
    match ev
    case Pointer(p) => PointerSound(s, p);
    case KeyDown(key, ctrl, shift) => KeyDownSound(s, key, ctrl, shift);
    case Control(_) =>
    case Edit(e) => EditSound(s, e);
    case SnapshotPanel(n) => SnapshotPanelSound(s, n);
  }
}
