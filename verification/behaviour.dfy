/** What a user sees over one or several events of the whiteboard
    (src/ExcalidrawClone.jsx): undo takes back the last change, gestures
    end in the element update their handlers promise, and the two
    handlers that do not do what they say, as written and corrected. */
module Behaviour {
  import opened Common
  import opened Geometry
  import opened Elements
  import opened Viewport
  import opened Scene
  import opened Tags
  import opened History
  import opened Boards
  import opened Session

  /** Ctrl+Z. */
  const UndoKey: Event := KeyDown("z", true, false)

  /** A plain left-button press. */
  function Press(screen: Point, newId: Id, random: real): Event {
    Pointer(PointerDown(screen, 0, false, newId, random))
  }

  function MoveTo(screen: Point): Event {
    Pointer(PointerMove(screen))
  }

  const Release: Event := Pointer(PointerUp)

  // ---------------------------------------------------------------- undo

  /** The history after an event other than undo: appended to when the
      board shows a different array, untouched otherwise. */
  lemma StepRecords(s: Session, ev: Event)
    requires Inv(s) && ValidEvent(ev) && !IsUndo(ev)
    ensures var r := Step(s, ev);
            && (r.board.stamp == s.board.stamp ==> r.board.history == s.board.history)
            && (r.board.stamp != s.board.stamp ==>
                  && r.board.history.index == s.board.history.index + 1
                  && r.board.history.entries == s.board.history.entries[..s.board.history.index + 1]
                                                + [Entry(r.board.stamp, r.board.elements)])
  {
    var h := Handle(s, ev);
    assert h.board.history == s.board.history;
  }

  /** Undo shows the history entry before the current one and deselects;
      the effect after it records nothing. */
  lemma UndoStep(s: Session)
    requires Inv(s) && s.board.history.index > 0
    ensures var r := Step(s, UndoKey);
            var i := s.board.history.index;
            && Entry(r.board.stamp, r.board.elements) == s.board.history.entries[i - 1]
            && r.board.history.index == i - 1 && r.board.history.entries == s.board.history.entries
            && r.selected.None?
  {
    assert Handle(s, UndoKey) == OnKeyDown(s, "z", true, false) == OnUndo(s);
  }

  /** Undo with nothing to undo changes nothing. */
  lemma UndoAtStartIsIgnored(s: Session)
    requires Inv(s) && s.board.history.index == 0
    ensures Step(s, UndoKey) == s
  {
    assert Handle(s, UndoKey) == OnKeyDown(s, "z", true, false) == OnUndo(s);
  }

  /** Undo right after an event that put a different array on the board
      brings back the array shown before it, and the history index with
      it. */
  lemma UndoRevertsStep(s: Session, ev: Event)
    requires Inv(s) && ValidEvent(ev) && !IsUndo(ev)
    requires Step(s, ev).board.stamp != s.board.stamp
    ensures var r := Step(Step(s, ev), UndoKey);
            && r.board.elements == s.board.elements
            && r.board.stamp == s.board.stamp
            && r.board.history.index == s.board.history.index
  {
    StepRecords(s, ev);
    var s1 := Step(s, ev);
    var i := s.board.history.index;
    assert s1.board.history.entries[i] == Top(s.board.history);
    UndoStep(s1);
  }

  // ------------------------------------------------------------- drawing

  /** The handler's half of a press with a drawing tool. */
  lemma DrawingPress(s: Session, screen: Point, newId: Id, random: real, kind: Kind)
    requires s.camera.zoom > 0.0 && 0.0 <= random < 1.0 && s.tool == Create(kind) && Drags(kind) && s.editing.None?
    ensures var h := OnPointerDown(s, screen, 0, false, newId, random);
            && h.board.elements == s.board.elements + [Created(s, kind, WorldAt(s, screen), newId, random)]
            && h.board.stamp == s.board.clock
            && h.selected == Some(newId) && h.action == Drawing && h.tool == s.tool
  {
  }

  /** Pressing with a drawing tool adds the new element on top, selects it
      and starts the drag; an undo then removes it again. */
  lemma PressWithDrawingTool(s: Session, screen: Point, newId: Id, random: real, kind: Kind)
    requires Inv(s) && 0.0 <= random < 1.0 && s.tool == Create(kind) && Drags(kind) && s.editing.None?
    ensures var r := Step(s, Press(screen, newId, random));
            && r.board.elements == s.board.elements + [Created(s, kind, WorldAt(s, screen), newId, random)]
            && r.selected == Some(newId) && r.action == Drawing && r.tool == s.tool
            && Step(r, UndoKey).board.elements == s.board.elements
  {
    DrawingPress(s, screen, newId, random, kind);
    assert Handle(s, Press(screen, newId, random)) == OnPointerDown(s, screen, 0, false, newId, random);
    assert s.board.stamp < s.board.clock;
    UndoRevertsStep(s, Press(screen, newId, random));
  }

  /** The handler's half of a press with the text or pin tool. */
  lemma PlacingPress(s: Session, screen: Point, newId: Id, random: real, kind: Kind)
    requires s.camera.zoom > 0.0 && 0.0 <= random < 1.0 && s.editing.None?
    requires s.tool == Create(kind) && (kind == TextKind || kind == PinKind)
    ensures var h := OnPointerDown(s, screen, 0, false, newId, random);
            && h.board.elements == s.board.elements + [Created(s, kind, WorldAt(s, screen), newId, random)]
            && h.selected == Some(newId) && h.editing == Some(newId) && h.tool == Select
            && EditorOpen(h)
  {
    var h := OnPointerDown(s, screen, 0, false, newId, random);
    assert h.board.elements[|s.board.elements|].id == newId;
  }

  /** Pressing with the text or pin tool adds the element, opens it for
      editing and goes back to the select tool. */
  lemma PressWithPlacingTool(s: Session, screen: Point, newId: Id, random: real, kind: Kind)
    requires Inv(s) && 0.0 <= random < 1.0 && s.editing.None?
    requires s.tool == Create(kind) && (kind == TextKind || kind == PinKind)
    ensures var r := Step(s, Press(screen, newId, random));
            && r.board.elements == s.board.elements + [Created(s, kind, WorldAt(s, screen), newId, random)]
            && r.selected == Some(newId) && r.editing == Some(newId) && r.tool == Select
            && EditorOpen(r)
  {
    PlacingPress(s, screen, newId, random, kind);
    assert Handle(s, Press(screen, newId, random)) == OnPointerDown(s, screen, 0, false, newId, random);
  }

  /** While a text is being edited the canvas has no pointer handlers: a
      press, a move, a release or a double click changes nothing. */
  lemma PointerWhileEditingIgnored(s: Session, p: PointerInput)
    requires Inv(s) && ValidEvent(Pointer(p)) && s.editing.Some?
    ensures Step(s, Pointer(p)) == s
  {
  }

  // ------------------------------------------------------------- selecting

  /** The handler's half of a press with the select tool. A press on the
      selected element starts moving it, from a copy taken at the press;
      otherwise the top-most element under the pointer is selected; on
      empty canvas the selection is dropped and the view is dragged. */
  lemma SelectPress(s: Session, screen: Point, button: int, newId: Id, random: real)
    requires s.camera.zoom > 0.0 && 0.0 <= random < 1.0 && s.editing.None?
    requires s.tool == Select && button != 1
    ensures var h := OnPointerDown(s, screen, button, false, newId, random);
            var es := s.board.elements;
            var w := WorldAt(s, screen);
            var grabbed := s.selected.Some? && Find(es, s.selected.value).Some? && HitTest(w, Find(es, s.selected.value).value);
            && h.board == s.board && h.tool == Select && h.editing.None?
            && (grabbed ==>
                  && h.action == Moving && h.start == MoveStart(w, Find(es, s.selected.value).value)
                  && h.selected == s.selected)
            && (!grabbed ==> forall i :: 0 <= i < |es| && HitTest(w, es[i]) && (forall j :: i < j < |es| ==> !HitTest(w, es[j])) ==>
                  h.selected == Some(es[i].id) && h.action == s.action && h.start == s.start)
            && (!grabbed && (forall i :: 0 <= i < |es| ==> !HitTest(w, es[i])) ==>
                  && h.selected.None? && h.action == Panning && h.start == PanStart(screen, s.camera.x, s.camera.y))
  {
    var es := s.board.elements;
    var w := WorldAt(s, screen);
    var t := TopmostHit(es, w);
    forall i | 0 <= i < |es| && HitTest(w, es[i]) && (forall j :: i < j < |es| ==> !HitTest(w, es[j]))
      ensures t == Some(i)
    {
    }
  }

  /** A press with the select tool, as one step: grabbing the selected
      element, selecting the top-most one under the pointer, or dropping
      the selection and panning; the elements are not touched. */
  lemma SelectPressStep(s: Session, screen: Point, newId: Id, random: real)
    requires Inv(s) && 0.0 <= random < 1.0 && s.editing.None? && s.tool == Select
    ensures var r := Step(s, Press(screen, newId, random));
            var es := s.board.elements;
            var w := WorldAt(s, screen);
            var grabbed := s.selected.Some? && Find(es, s.selected.value).Some? && HitTest(w, Find(es, s.selected.value).value);
            && r.board.elements == es
            && (grabbed ==> r.action == Moving && r.start == MoveStart(w, Find(es, s.selected.value).value) && r.selected == s.selected)
            && (!grabbed ==> forall i :: 0 <= i < |es| && HitTest(w, es[i]) && (forall j :: i < j < |es| ==> !HitTest(w, es[j])) ==>
                  r.selected == Some(es[i].id))
            && (!grabbed && (forall i :: 0 <= i < |es| ==> !HitTest(w, es[i])) ==>
                  r.selected.None? && r.action == Panning && r.start == PanStart(screen, s.camera.x, s.camera.y))
  {
    SelectPress(s, screen, 0, newId, random);
    assert Handle(s, Press(screen, newId, random)) == OnPointerDown(s, screen, 0, false, newId, random);
  }

  /** The wheel listener is on the canvas too: while a text is being
      edited a wheel turn leaves the camera, and the overlay placed from
      it, where they are. */
  lemma WheelWhileEditingIgnored(s: Session, screen: Point, deltaY: real)
    requires Inv(s) && s.editing.Some?
    ensures Step(s, Control(Wheel(screen, deltaY))) == s
  {
  }

  /** Ctrl+S opens the snapshot dialog and, as S is a pan key, also pans:
      the camera takes the step of the S key, so the content moves down on
      screen (see `KeyPanShiftsScreen`). */
  lemma CtrlSPans(s: Session)
    requires Inv(s)
    ensures var r := Step(s, KeyDown("s", true, false));
            && r.board == s.board && r.camera == KeyPan(s.camera, Down) && r.camera != s.camera
  {
  }

  // --------------------------------------------------------------- erasing

  /** Pointer moves in a row. */
  function Moves(s: Session, screens: seq<Point>): (r: Session)
    requires Inv(s)
    ensures Inv(r)
    decreases |screens|
  {
    if |screens| == 0 then s else Moves(Step(s, MoveTo(screens[0])), screens[1..])
  }

  /** A press with the brush starts a drag with no erase point yet. */
  lemma BrushPress(s: Session, screen: Point, newId: Id, random: real)
    requires Inv(s) && 0.0 <= random < 1.0 && s.editing.None?
    requires s.tool == Eraser && s.eraserMode == BrushMode
    ensures var r := Step(s, Press(screen, newId, random));
            && r.action == Erasing && r.start == WorldStart(WorldAt(s, screen), None, None)
            && r.board == s.board && r.variant == s.variant && r.tool == Eraser
  {
  }

  /** As written, a brush drag changes nothing at all, however the pointer
      moves: the gate never opens before a first erase, and only an erase
      would open it. */
  lemma {:induction false} BrushDragNeverErases(s: Session, screens: seq<Point>)
    requires Inv(s) && s.variant == AsWritten && s.action == Erasing
    requires s.start.WorldStart? && s.start.lastErasedX.None? && s.start.lastErasedY.None?
    ensures Moves(s, screens) == s
    decreases |screens|
  {
    if |screens| > 0 {
      var w := WorldAt(s, screens[0]);
      BrushGateAsWrittenNeverOpens(s.start, w, s.camera.zoom);
      assert OnPointerMove(s, screens[0]) == s;
      assert Step(s, MoveTo(screens[0])) == s;
      BrushDragNeverErases(s, screens[1..]);
    }
  }

  /** Corrected, the first move further than `3 / zoom` from the press
      point erases around the pointer and becomes the new erase point. */
  lemma BrushDragErasesCorrected(s: Session, screen: Point)
    requires Inv(s) && s.variant == Corrected && s.tool == Eraser && s.action == Erasing && s.editing.None?
    requires s.start.WorldStart? && s.start.lastErasedX.None?
    requires Beyond(DistSq(WorldAt(s, screen), s.start.world), 3.0 / s.camera.zoom)
    ensures var r := Step(s, MoveTo(screen));
            var w := WorldAt(s, screen);
            && r.board.elements == BrushErase(s.board.elements, w, s.eraserSize / s.camera.zoom).0
            && r.start.lastErasedX == Some(w.x) && r.start.lastErasedY == Some(w.y)
            && r.action == Erasing
  {
    var w := WorldAt(s, screen);
    BrushGateCorrectedOpens(s.start, w, s.camera.zoom);
    BrushEraseChangedIff(s.board.elements, w, s.eraserSize / s.camera.zoom);
  }

  /** A press with the shape eraser starts a drag area at the press point. */
  lemma ShapePress(s: Session, screen: Point, newId: Id, random: real)
    requires Inv(s) && 0.0 <= random < 1.0 && s.editing.None?
    requires s.tool == Eraser && s.eraserMode == ShapeMode
    ensures var r := Step(s, Press(screen, newId, random));
            && r.action == EraserShape && r.start == WorldStart(WorldAt(s, screen), None, None)
            && r.dragArea == Some((WorldAt(s, screen), WorldAt(s, screen)))
            && r.board == s.board && r.camera == s.camera && r.snapToGrid == s.snapToGrid && r.variant == s.variant
  {
  }

  /** Dragging stretches the area from the press point to the pointer. */
  lemma ShapeDrag(s: Session, screen: Point)
    requires Inv(s) && s.action == EraserShape && s.editing.None?
    ensures var r := Step(s, MoveTo(screen));
            && r.dragArea == Some((s.start.world, WorldAt(s, screen)))
            && r.board == s.board && r.action == EraserShape && r.variant == s.variant
  {
  }

  /** Releasing erases with the area eraser of the session's variant and
      ends the gesture. */
  lemma ShapeRelease(s: Session)
    requires Inv(s) && s.action == EraserShape && s.dragArea.Some? && s.editing.None?
    ensures var r := Step(s, Release);
            && r.board.elements == EraseArea(s.variant, s.board.elements, s.dragArea.value.0, s.dragArea.value.1)
            && r.action == Idle && r.dragArea.None?
  {
  }

  /** The shape eraser's whole gesture: press, drag, release. The elements
      left are those the area eraser of the session's variant keeps for the
      rectangle between the press point and the last pointer position. */
  lemma ShapeEraseGesture(s: Session, down: Point, newId: Id, random: real, up: Point)
    requires Inv(s) && 0.0 <= random < 1.0 && s.editing.None?
    requires s.tool == Eraser && s.eraserMode == ShapeMode
    ensures var r := Step(Step(Step(s, Press(down, newId, random)), MoveTo(up)), Release);
            && r.board.elements == EraseArea(s.variant, s.board.elements, WorldAt(s, down), WorldAt(s, up))
            && r.action == Idle
  {
    ShapePress(s, down, newId, random);
    var s1 := Step(s, Press(down, newId, random));
    ShapeDrag(s1, up);
    var s2 := Step(s1, MoveTo(up));
    assert WorldAt(s1, up) == WorldAt(s, up);
    ShapeRelease(s2);
  }

  /** The handler's half of a point-eraser press. */
  lemma PointPress(s: Session, screen: Point, newId: Id, random: real)
    requires s.camera.zoom > 0.0 && 0.0 <= random < 1.0 && s.editing.None?
    requires s.tool == Eraser && s.eraserMode == PointMode && UniqueIds(s.board.elements)
    ensures var h := OnPointerDown(s, screen, 0, false, newId, random);
            var es := s.board.elements;
            match TopmostHit(es, WorldAt(s, screen))
            case None => h == s
            case Some(i) => h.board.elements == es[..i] + es[i + 1..] && h.selected.None?
  {
    PointEraseRemovesTopmost(s.board.elements, WorldAt(s, screen));
  }

  /** A press with the point eraser removes the top-most element under the
      pointer and clears the selection. */
  lemma PointEraseRemovesTop(s: Session, screen: Point, newId: Id, random: real)
    requires Inv(s) && 0.0 <= random < 1.0 && s.editing.None?
    requires s.tool == Eraser && s.eraserMode == PointMode && UniqueIds(s.board.elements)
    ensures var r := Step(s, Press(screen, newId, random));
            var es := s.board.elements;
            match TopmostHit(es, WorldAt(s, screen))
            case None => r == s
            case Some(i) => r.board.elements == es[..i] + es[i + 1..] && r.selected.None?
  {
    PointPress(s, screen, newId, random);
    assert Handle(s, Press(screen, newId, random)) == OnPointerDown(s, screen, 0, false, newId, random);
  }

  /** The handler's half of Delete and Backspace. */
  lemma DeleteKey(s: Session, key: string)
    requires Valid(s.board.history) && s.camera.zoom > 0.0
    requires (key == "Delete" || key == "Backspace") && s.selected.Some?
    ensures var h := OnKeyDown(s, key, false, false);
            && (s.editing.None? ==>
                  && h.board.elements == DeleteSelected(s.board.elements, s.selected.value)
                  && h.selected.None?)
            && (s.editing.Some? ==> h == s)
  {
    assert PanDirection(key).None?;
  }

  /** Delete or Backspace removes the selected element (every element with
      its id) and clears the selection, unless a text is being edited. */
  lemma DeleteKeyRemovesSelection(s: Session, key: string)
    requires Inv(s) && (key == "Delete" || key == "Backspace") && s.selected.Some?
    ensures var r := Step(s, KeyDown(key, false, false));
            && (s.editing.None? ==>
                  && r.board.elements == DeleteSelected(s.board.elements, s.selected.value)
                  && r.selected.None?)
            && (s.editing.Some? ==> r == s)
  {
    DeleteKey(s, key);
    assert Handle(s, KeyDown(key, false, false)) == OnKeyDown(s, key, false, false);
  }

  // --------------------------------------------------------------- panning

  /** The handler's half of a press with the pan tool. */
  lemma PanPress(s: Session, down: Point, newId: Id, random: real)
    requires s.camera.zoom > 0.0 && 0.0 <= random < 1.0 && s.editing.None? && s.tool == Pan
    ensures OnPointerDown(s, down, 0, false, newId, random)
         == s.(action := Panning, start := PanStart(down, s.camera.x, s.camera.y))
  {
  }

  /** Panning by drag: after the press and one move, the world point that
      was under the pointer at the press is under the pointer again. */
  lemma PanDragFollowsPointer(s: Session, down: Point, newId: Id, random: real, at: Point)
    requires Inv(s) && 0.0 <= random < 1.0 && s.editing.None? && s.tool == Pan
    ensures var s1 := Step(s, Press(down, newId, random));
            var r := Step(s1, MoveTo(at));
            && ScreenToWorld(at, r.camera) == ScreenToWorld(down, s.camera)
            && r.board == s.board
  {
    PanPress(s, down, newId, random);
    assert Handle(s, Press(down, newId, random)) == OnPointerDown(s, down, 0, false, newId, random);
    var s1 := Step(s, Press(down, newId, random));
    assert s1.start == PanStart(down, s.camera.x, s.camera.y) && s1.camera == s.camera;
    assert Handle(s1, MoveTo(at)) == OnPointerMove(s1, at);
    DragPanKeepsGrabbedPoint(s1.camera, s.camera, down, at);
  }

  // ------------------------------------------------------------ text edits

  /** A double click with the select tool on a text or pin that is the
      top-most element under the pointer selects it and opens it. */
  lemma DoubleClickOpensText(s: Session, screen: Point)
    requires Inv(s) && s.tool == Select && s.editing.None?
    requires var i := TopmostHit(s.board.elements, ScreenToWorld(screen, s.camera));
             i.Some? && HasText(s.board.elements[i.value])
    ensures var r := Step(s, Pointer(DoubleClick(screen)));
            var i := TopmostHit(s.board.elements, ScreenToWorld(screen, s.camera)).value;
            && r.editing == Some(s.board.elements[i].id) && r.selected == r.editing
            && EditorOpen(r) && r.board == s.board
  {
  }

  /** The handler's half of typing into the overlay. */
  lemma Typing(s: Session, typed: string)
    requires EditorOpen(s)
    ensures var h := OnEdit(s, TextTyped(typed));
            && h.board.elements == SetText(s.board.elements, s.editing.value, typed)
            && h.editing == s.editing && h.editGuard == s.editGuard && EditorOpen(h)
  {
    var id := s.editing.value;
    var h := OnEdit(s, TextTyped(typed));
    var k := FindIndex(s.board.elements, id);
    assert Ids(h.board.elements)[k] == Ids(s.board.elements)[k];
  }

  /** Typing into the overlay writes the text into the edited element and
      keeps the overlay open. */
  lemma TypingStep(s: Session, typed: string)
    requires Inv(s) && EditorOpen(s)
    ensures var t := Step(s, Edit(TextTyped(typed)));
            && t.board.elements == SetText(s.board.elements, s.editing.value, typed)
            && t.editing == s.editing && EditorOpen(t)
  {
    Typing(s, typed);
    assert Handle(s, Edit(TextTyped(typed))) == OnEdit(s, TextTyped(typed));
  }

  /** Blurring the overlay commits its text and closes it. */
  lemma BlurStep(s: Session, text: string)
    requires Inv(s) && EditorOpen(s)
    ensures var r := Step(s, Edit(TextBlurred(text)));
            && r.board.elements == CommitText(s.board.elements, s.editing.value, text)
            && r.editing.None?
  {
    assert Handle(s, Edit(TextBlurred(text))) == OnEdit(s, TextBlurred(text));
  }

  /** What was typed before the blur does not matter: the element ends up
      with the overlay's final text, as if it had been committed at once. */
  lemma TypingThenBlurCommits(s: Session, typed: string, text: string)
    requires Inv(s) && EditorOpen(s)
    ensures var t := Step(s, Edit(TextTyped(typed)));
            && EditorOpen(t)
            && Step(t, Edit(TextBlurred(text))).board.elements == Step(s, Edit(TextBlurred(text))).board.elements
  {
    TypingStep(s, typed);
    var t := Step(s, Edit(TextTyped(typed)));
    BlurStep(t, text);
    BlurStep(s, text);
    CommitTextSpec(s.board.elements, s.editing.value, typed, text);
  }

  // ------------------------------------------------------------- snapshots

  /** Saving under a non-blank name appends a snapshot of the elements and
      the camera; the board itself is not changed. */
  lemma SaveStep(s: Session, name: string, id: Id, timestamp: string)
    requires Inv(s) && !AllSpace(name)
    ensures var r := Step(s, SnapshotPanel(SnapshotSaved(name, id, timestamp)));
            var n := |s.board.snapshots|;
            && |r.board.snapshots| == n + 1 && r.board.snapshots[..n] == s.board.snapshots
            && r.board.snapshots[n].elements == s.board.elements && r.board.snapshots[n].camera == s.camera
            && r.board.snapshots[n].name == name
            && r.board.elements == s.board.elements && r.board.stamp == s.board.stamp && r.camera == s.camera
  {
  }

  /** A blank name is refused and nothing changes. */
  lemma BlankSnapshotNameRefused(s: Session, name: string, id: Id, timestamp: string)
    requires Inv(s) && AllSpace(name)
    ensures Step(s, SnapshotPanel(SnapshotSaved(name, id, timestamp))) == s
  {
  }

  /** Loading shows the snapshot's elements under its camera. */
  lemma LoadStep(s: Session, index: nat)
    requires Inv(s) && index < |s.board.snapshots|
    ensures var r := Step(s, SnapshotPanel(SnapshotLoaded(index)));
            r.board.elements == s.board.snapshots[index].elements && r.camera == s.board.snapshots[index].camera
  {
  }

  /** Saving under a non-blank name and loading that snapshot straight away
      shows the same elements under the same camera. */
  lemma SaveThenLoadRestores(s: Session, name: string, id: Id, timestamp: string)
    requires Inv(s) && !AllSpace(name)
    ensures var s1 := Step(s, SnapshotPanel(SnapshotSaved(name, id, timestamp)));
            var r := Step(s1, SnapshotPanel(SnapshotLoaded(|s.board.snapshots|)));
            r.board.elements == s.board.elements && r.camera == s.camera
  {
    SaveStep(s, name, id, timestamp);
    var s1 := Step(s, SnapshotPanel(SnapshotSaved(name, id, timestamp)));
    LoadStep(s1, |s.board.snapshots|);
  }

  // ----------------------------------------------------------------- tools

  /** Choosing any tool but select drops the selection; the board is not
      touched. */
  lemma ToolChangeDeselects(s: Session, t: Tool)
    requires Inv(s)
    ensures var r := Step(s, Control(ToolChosen(t)));
            && r.tool == t && r.board == s.board
            && (t != Select ==> r.selected.None?) && (t == Select ==> r.selected == s.selected)
  {
  }
}
