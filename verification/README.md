# Whiteboard core in Dafny

A Dafny model of the infinite-canvas whiteboard in `src/ExcalidrawClone.jsx`, with the properties its handlers promise proved about the model.

The model covers the following parts:

- **Geometry.** The distance and point-to-segment helpers, and the barycentric point-in-triangle test.
- **Elements.** Creating elements, their bounding boxes, and hit-testing.
- **Viewport.** The camera: screen-to-world mapping, wheel and button zoom, drag and key panning, and grid snapping.
- **Scene.** The element-list updates done by the pointer handlers: selecting, moving, drawing, layer order, the three eraser modes, image data, and text editing.
- **Tags.** Pin tags: adding, removing, reordering, the board's tag list, and the tag filter.
- **Snapshots and History.** Saving, loading and deleting snapshots, and the linear undo history.
- **Session and Behaviour.** The whole interaction state as a state machine, one `Step` per user event, and what a user sees over one or several events.
- **Colors.** The two colour helpers `hexToRgba` and `stringToColor`, which the tag labels use.

## How the model is built

- **Modules.** The modules follow the component's structure: `Common`, `Geometry`, `Elements`, `Viewport`, `Scene`, `Tags`, `Snapshots`, `History`, `Boards`, `Session`, `Behaviour`, `Colors`.
- **Numbers.** Coordinates are mathematical reals.
  - Every `sqrt(d) < t` and `sqrt(d) > r` comparison is stated on the squared distance (`Geometry.Within`, `Geometry.Beyond`).
  - `Geometry.WithinExact` and `Geometry.BeyondExact` prove that these agree with the square-root comparisons.
- **Array identity.** The source tells element arrays apart by reference. Its history effect records only when `elements !== history[historyIndex]`.
  - Every array in the model carries a stamp. `Boards.Board.arrays` remembers which contents each stamp names.
  - An update that builds a new array takes a fresh stamp. An updater that returns `prev`, an undo, or a snapshot load keeps the existing array's stamp.
- **One event.** `Session.Step` runs a handler (`Session.Handle`) followed by the history effect (`Boards.Settle`), as React runs the effect after the state updates.
- **The edit guard.** The `isEditingText` ref is only ever assigned `false` (lines 1591 and 1601). The guard in the history effect therefore never pauses recording. The model keeps the field and proves that it stays `false`.
- **Variants.** `Session.Variant` selects between the code as written (`AsWritten`) and the fixed definitions (`Corrected`). Only two handlers differ between them: the brush eraser's throttle and the area eraser's overlap test (see Findings). Every lemma about the other handlers holds for both variants.
- **Colours.** `Colors` models `parseInt(s, 16)` as section 19.2.5 of ECMAScript 2023 defines it:
  - leading white space, an optional sign and an optional `0x` are skipped;
  - the longest run of hex digits is read, and an empty run gives NaN.
- **The shift operators.** `>>` and `<<` act on ToInt32 of their operand, written out modulo 2^32. `Colors.Channel` is `(n >> k) & 255`.
- **Strings.** JavaScript strings are read as UTF-16 code units through `Colors.Utf16`.

## Model

| member | source | states |
|---|---|---|
| Common.IndexOf | src/ExcalidrawClone.jsx:2424-2438 | `indexOf` gives the first position holding the value, or -1 exactly when the value is absent |
| Geometry.WithinExact | src/ExcalidrawClone.jsx:45-57 | the squared-distance test used for `distance(...) < threshold` holds exactly when the real distance is below the threshold |
| Geometry.BeyondExact | src/ExcalidrawClone.jsx:1012-1028 | the squared-distance test used for `distance(...) > radius` holds exactly when the real distance exceeds the radius |
| Geometry.ProjectionParam | src/ExcalidrawClone.jsx:49-58 | the clamped projection parameter of `isPointNearLine` always lies in [0, 1] |
| Geometry.ProjectionIsClosest | src/ExcalidrawClone.jsx:49-58 | the clamped projection is the point of the segment nearest to the given point |
| Geometry.NearSegmentIffSomePointWithin | src/ExcalidrawClone.jsx:49-58 | `isPointNearLine` holds iff some point of the segment is strictly closer than the threshold, including for a zero-length segment |
| Geometry.BarycentricSolves | src/ExcalidrawClone.jsx:60-78 | when the denominator is non-zero, the `u`, `v` that `pointInTriangle` computes solve p − a = u(c − a) + v(b − a) |
| Elements.OrElse | src/ExcalidrawClone.jsx:227-228 | `v \|\| fallback` gives the fallback exactly when the value is missing, zero, or already the fallback, and gives the value otherwise |
| Elements.CreateElement | src/ExcalidrawClone.jsx:221-265 | a new element has the given id, anchor and style, its second corner defaults to the anchor, its seed is in [0, 10000), and it has the type's defaults (one-point stroke; 200×40 empty text; 200×200 image without data; 150×150 pin with no tags and the pin colour) |
| Elements.MinOf | src/ExcalidrawClone.jsx:316-325 | `Math.min(...xs)` is a lower bound that one entry attains |
| Elements.MaxOf | src/ExcalidrawClone.jsx:316-325 | `Math.max(...xs)` is an upper bound that one entry attains |
| Elements.FreehandBoundsTight | src/ExcalidrawClone.jsx:316-325 | a stroke's bounds contain every point, and each side is touched by some point |
| Elements.BoxHitIffInBounds | src/ExcalidrawClone.jsx:270-308 | rectangles, texts, images and pins are hit exactly inside their bounds |
| Elements.ZeroRadiusEllipseNeverHits | src/ExcalidrawClone.jsx:278-286 | an ellipse with zero width or height is hit nowhere: the hit test returns false as soon as either radius is 0 |
| Elements.EllipseCentreHits | src/ExcalidrawClone.jsx:278-286 | a proper ellipse is hit at its centre |
| Elements.EllipseHitIffScaled | src/ExcalidrawClone.jsx:278-286 | the ellipse test is the division-free inequality of the scaled ellipse, with the 1.05 margin |
| Elements.TriangleHitInBounds | src/ExcalidrawClone.jsx:287-290 | a triangle is only ever hit inside its bounds |
| Elements.DegenerateTriangleNeverHit | src/ExcalidrawClone.jsx:60-78 | a triangle whose corners coincide is hit nowhere |
| Elements.ArrowHitIffNearSegmentPoint | src/ExcalidrawClone.jsx:293-295 | an arrow is hit iff some point of its shaft is strictly closer than 8 |
| Elements.AnySegmentNearIff | src/ExcalidrawClone.jsx:297-304 | the scan over consecutive stroke points finds a near segment iff one exists |
| Elements.FreehandHitIff | src/ExcalidrawClone.jsx:297-304 | a stroke is hit iff some point on one of its segments is strictly closer than 8 |
| Elements.NewElementHitAtAnchor | src/ExcalidrawClone.jsx:221-311 | a rectangle, arrow, text, image or pin is hit at the point where it was just created |
| Elements.NewElementNeverHit | src/ExcalidrawClone.jsx:221-311 | a just-created ellipse, triangle or stroke, still of zero size, is hit nowhere |
| Viewport.ScreenToWorld | src/ExcalidrawClone.jsx:39-42 | the world point maps back to the screen point under the camera |
| Viewport.ScreenToWorldInverts | src/ExcalidrawClone.jsx:1267-1273 | placing the text overlay on screen and reading it back gives the same world point |
| Viewport.WorldToScreenInverts | src/ExcalidrawClone.jsx:39-42 | mapping a screen point to the world and back gives the same screen point |
| Viewport.ClampZoom | src/ExcalidrawClone.jsx:1122-1133 | the zoom is kept in [0.1, 3], and a zoom already in range is unchanged |
| Viewport.WheelZoom | src/ExcalidrawClone.jsx:1113-1134 | a wheel notch keeps the zoom in range and keeps the world point under the cursor fixed; from a zoom in range, scrolling down never zooms in and scrolling up never zooms out |
| Viewport.ZoomOut | src/ExcalidrawClone.jsx:2183-2186 | the zoom-out button never goes below the minimum, never zooms in from a zoom of at least 0.1, and does not pan |
| Viewport.ZoomIn | src/ExcalidrawClone.jsx:2212-2215 | the zoom-in button never goes above the maximum, never zooms out from a zoom of at most 3, and does not pan |
| Viewport.ZoomReset | src/ExcalidrawClone.jsx:2200-2202 | the reset button sets the zoom to 1 and does not pan |
| Viewport.ZoomButtonsInverse | src/ExcalidrawClone.jsx:2183-2215 | away from the limits, zoom in and zoom out undo each other |
| Viewport.DragPan | src/ExcalidrawClone.jsx:927-936 | panning by drag keeps the zoom |
| Viewport.DragPanKeepsGrabbedPoint | src/ExcalidrawClone.jsx:927-936 | the world point grabbed at the press stays under the pointer while it moves |
| Viewport.PanDirection | src/ExcalidrawClone.jsx:1159-1168 | the arrow keys and w/a/s/d (either case) pan, each in its own direction, and no other key pans |
| Viewport.KeyPan | src/ExcalidrawClone.jsx:1159-1168 | a key pan keeps the zoom |
| Viewport.KeyPanShiftsScreen | src/ExcalidrawClone.jsx:1159-1168 | a key pan moves all content on screen by 120/zoom in the key's direction (the view moves the opposite way) |
| Viewport.KeyPanUndone | src/ExcalidrawClone.jsx:1159-1168 | the opposite key takes a key pan back |
| Viewport.Round | src/ExcalidrawClone.jsx:819 | `Math.round` gives the nearest integer, with halves rounded up |
| Viewport.Snap | src/ExcalidrawClone.jsx:817-819 | a snapped coordinate moves by at most half a grid cell (exactly half only upwards, as `Math.round` rounds ties up) |
| Viewport.SnapIsNearestGridLine | src/ExcalidrawClone.jsx:817-819 | snapping gives the grid line nearest to the value, with ties going up, and leaves grid lines alone |
| Viewport.SnapIdempotent | src/ExcalidrawClone.jsx:817-819 | snapping twice is snapping once |
| Scene.FindIndex | src/ExcalidrawClone.jsx:449-463 | `findIndex` gives the first element with the id, or -1 exactly when none has it |
| Scene.Find | src/ExcalidrawClone.jsx:2343-2364 | `find` gives the first element with the id, or nothing exactly when none has it |
| Scene.TopmostHit | src/ExcalidrawClone.jsx:839-848 | the reversed search gives the last, top-most element hit, or nothing exactly when no element is hit |
| Scene.RemoveId | src/ExcalidrawClone.jsx:839-848 | no element with the removed id is left |
| Scene.RemoveIdKeepsOthers | src/ExcalidrawClone.jsx:839-848 | removal keeps every other element, in order |
| Scene.RemoveIdIsDeleteAt | src/ExcalidrawClone.jsx:839-848 | with distinct ids, removing an element's id deletes exactly that position |
| Scene.PointEraseRemovesTopmost | src/ExcalidrawClone.jsx:839-848 | the point eraser removes exactly the top-most element hit, and a miss keeps the same array |
| Scene.DeleteSelected | src/ExcalidrawClone.jsx:1183-1189 | after Delete no element has the selected id |
| Scene.DeleteSelectedRemovesOne | src/ExcalidrawClone.jsx:1183-1189 | with distinct ids, Delete removes exactly the selected element and keeps the others in order |
| Scene.MoveLayer | src/ExcalidrawClone.jsx:449-463 | the layer buttons change the array only when the selection exists; the element then moves to the end (front) or the start (back), and the rest keep their order |
| Scene.MoveToFrontIdempotent | src/ExcalidrawClone.jsx:449-463 | bringing an element to the front twice gives the order it had after the first time |
| Scene.DrawStep | src/ExcalidrawClone.jsx:938-960 | drawing changes only the selected element, and keeps the ids and their order |
| Scene.DrawStepFollowsPointer | src/ExcalidrawClone.jsx:938-960 | a shape being drawn gets the pointer as its second corner |
| Scene.SmoothedPointCloser | src/ExcalidrawClone.jsx:938-960 | the smoothed stroke point is 35% of the way to the pointer, so it is nearer to the pointer than the last point |
| Scene.DrawStepExtendsStroke | src/ExcalidrawClone.jsx:938-960 | a stroke gains the smoothed point exactly when the pointer is more than 2 from its last point |
| Scene.ShiftPoints | src/ExcalidrawClone.jsx:962-992 | every stroke point is shifted by the drag offset |
| Scene.MoveStep | src/ExcalidrawClone.jsx:962-992 | moving changes only the selected element, and keeps the ids and their order |
| Scene.MoveShiftsBounds | src/ExcalidrawClone.jsx:962-992 | the moved element's bounds are the captured copy's bounds shifted by the offset |
| Scene.MoveLatestWins | src/ExcalidrawClone.jsx:962-992 | moves are computed from the captured copy, so only the latest pointer position matters |
| Scene.MoveByZeroIsIdentity | src/ExcalidrawClone.jsx:962-992 | pressing on an element without dragging leaves it where it was |
| Scene.Survivors | src/ExcalidrawClone.jsx:1007-1016 | every stroke point kept by the brush lies outside the eraser radius |
| Scene.SurvivorsExact | src/ExcalidrawClone.jsx:1007-1016 | the brush keeps exactly the stroke points outside the radius, in order, and the stroke is unchanged iff all points are outside |
| Scene.EraseOneSpec | src/ExcalidrawClone.jsx:1002-1038 | for one element: a stroke is trimmed and dropped below two points; any other element goes iff its centre is within the radius; the brush reports a change iff one happened |
| Scene.BrushStep | src/ExcalidrawClone.jsx:1002-1038 | the brush hands back the previous array iff nothing was erased |
| Scene.BrushEraseKeepsOrder | src/ExcalidrawClone.jsx:1002-1038 | the brush keeps the order of what survives and invents no id |
| Scene.BrushEraseOnlyTrimmed | src/ExcalidrawClone.jsx:1002-1038 | every element left by the brush is the trimmed version of an input element |
| Scene.BrushEraseKeepsTrimmed | src/ExcalidrawClone.jsx:1002-1038 | every surviving trimmed element is kept |
| Scene.BrushEraseChangedIff | src/ExcalidrawClone.jsx:1002-1038 | the brush's change flag is raised exactly when the resulting list differs from the input |
| Scene.DragBox | src/ExcalidrawClone.jsx:1071-1085 | the eraser's area contains both drag corners and is well formed |
| Scene.KeepWhereExact | src/ExcalidrawClone.jsx:1071-1085 | the area eraser's filter keeps exactly the elements that pass, in order |
| Scene.AreaEraseAsWrittenRemoves | src/ExcalidrawClone.jsx:1071-1085 | as written, an element is erased iff the test with `bounds.minY > minY` passes |
| Scene.AreaEraseMissesInsideElement | src/ExcalidrawClone.jsx:1081 | a rectangle lying entirely inside the drag area survives the area eraser as written |
| Scene.AreaEraseIntendedRemoves | src/ExcalidrawClone.jsx:1071-1085 | the corrected area eraser removes exactly the elements whose bounds overlap the area |
| Scene.OverlapsIffSharedPoint | src/ExcalidrawClone.jsx:1071-1085 | the corrected overlap test holds iff the two boxes share a point |
| Scene.SetImageData | src/ExcalidrawClone.jsx:1202-1206 | the upload changes only the selected image, and keeps the ids and their order |
| Scene.SetImageDataShows | src/ExcalidrawClone.jsx:1202-1206 | after the upload the selected image shows the data, with its place and size unchanged |
| Scene.SetText | src/ExcalidrawClone.jsx:1585-1589 | typing changes only the edited text or pin, and keeps the ids and their order |
| Scene.CommitText | src/ExcalidrawClone.jsx:1590-1597 | blurring changes only the edited text or pin, and keeps the ids and their order |
| Scene.CommitTextSpec | src/ExcalidrawClone.jsx:1585-1597 | typing followed by blur is the same as blurring at once; committing twice is committing once; the edited element ends with the final text and is no longer new |
| Tags.Trim | src/ExcalidrawClone.jsx:2343-2364 | the trimmed tag is a slice of the input with only white space cut from either end, and does not start or end with white space |
| Tags.TrimSpec | src/ExcalidrawClone.jsx:2343-2364 | trimming is idempotent, and gives the empty string iff the input is all white space |
| Tags.AddTagTo | src/ExcalidrawClone.jsx:2343-2364 | after adding, the tag list holds the old tags and the new one, without duplicates if there were none before |
| Tags.RemoveTagFrom | src/ExcalidrawClone.jsx:2409-2417 | the × button keeps every other tag, in order, and drops the removed one |
| Tags.AddRemoveInverse | src/ExcalidrawClone.jsx:2343-2417 | removing a tag that was just added gives the list back |
| Tags.RemoveKeepsNoDup | src/ExcalidrawClone.jsx:2409-2417 | removing a tag keeps a duplicate-free list duplicate-free |
| Tags.TagUpSpec | src/ExcalidrawClone.jsx:2424-2438 | ↑ permutes the tags, swapping the tag with its predecessor, and does nothing for the first or a missing tag |
| Tags.TagDownSpec | src/ExcalidrawClone.jsx:2444-2458 | ↓ permutes the tags, swapping the tag with its successor, and does nothing for the last or a missing tag |
| Tags.TagUpThenDown | src/ExcalidrawClone.jsx:2424-2458 | ↓ undoes an ↑ that moved a tag |
| Tags.TagDownThenUp | src/ExcalidrawClone.jsx:2424-2458 | ↑ undoes a ↓ that moved a tag |
| Tags.MapTags | src/ExcalidrawClone.jsx:2343-2364 | a tag button changes only the selected pin's tag list, and keeps the ids and their order |
| Tags.AddTag | src/ExcalidrawClone.jsx:2343-2364 | the board is replaced iff the trimmed input is non-empty and the selected element exists and is a pin (a tag already present replaces it with an unchanged copy) |
| Tags.AddTagSpec | src/ExcalidrawClone.jsx:2343-2364 | after Add, the pin's tags are the old tags plus the trimmed input |
| Tags.PinTagOpsSpec | src/ExcalidrawClone.jsx:2409-2458 | on the selected pin, × deletes exactly that tag; ↑ exchanges the tag's first occurrence with the tag before it and ↓ with the tag after it, every other position keeping its tag; at the edge of the list or for an absent tag the pin is unchanged; ↑ then ↓ restores a duplicate-free list |
| Tags.PinTags | src/ExcalidrawClone.jsx:540-548 | the collected tags are exactly the tags of some pin |
| Tags.Distinct | src/ExcalidrawClone.jsx:540-548 | the deduplicated list has the same members, each once |
| Tags.DistinctFirstSeenOrder | src/ExcalidrawClone.jsx:540-548 | the deduplicated list keeps the order of first appearance |
| Tags.AllTagsSpec | src/ExcalidrawClone.jsx:540-548 | the board's tag list holds every pin tag exactly once, in order of first appearance |
| Tags.FilterByTag | src/ExcalidrawClone.jsx:629-631 | an empty filter shows every element; otherwise exactly the pins carrying the tag are shown, in order |
| Snapshots.Save | src/ExcalidrawClone.jsx:466-481 | a blank name is refused; otherwise the snapshot with the elements, camera, name and id is appended |
| Snapshots.Delete | src/ExcalidrawClone.jsx:489-491 | deleting leaves no snapshot with the id and keeps the rest in order |
| Snapshots.DeleteKeepsOthers | src/ExcalidrawClone.jsx:489-491 | every snapshot with another id is kept |
| Snapshots.DeleteAbsent | src/ExcalidrawClone.jsx:489-491 | deleting an absent id changes nothing |
| Snapshots.SaveThenDelete | src/ExcalidrawClone.jsx:466-491 | deleting a snapshot just saved under a fresh id gives the list back |
| History.Initial | src/ExcalidrawClone.jsx:375-376 | the history starts with the persisted array as its one, current entry |
| History.Record | src/ExcalidrawClone.jsx:430-438 | the effect truncates the redo entries and appends the array iff it is not the current entry and recording is not paused |
| History.Undo | src/ExcalidrawClone.jsx:441-447 | undo steps the index back and restores that entry, and does nothing at index 0 |
| History.RecordSettles | src/ExcalidrawClone.jsx:430-438 | running the effect again after it recorded changes nothing |
| History.UndoAfterRecord | src/ExcalidrawClone.jsx:430-447 | undo right after a recorded change restores the previous array |
| History.UndoIsNotRecorded | src/ExcalidrawClone.jsx:430-447 | the array restored by undo is the current entry, so the effect does not record it again |
| History.RecordAfterUndoDropsRedo | src/ExcalidrawClone.jsx:430-447 | a change after an undo drops the undone entries |
| History.RecordAllThenUndoAll | src/ExcalidrawClone.jsx:430-447 | after n recorded changes, n undos bring back the first array |
| History.UndoNSteps | src/ExcalidrawClone.jsx:441-447 | n undos move the index back by n, stopping at 0 |
| Boards.InitialBoard | src/ExcalidrawClone.jsx:374-376 | the starting board is coherent, and its history holds the persisted array |
| Boards.SameStampSameArray | src/ExcalidrawClone.jsx:433 | on a coherent board, arrays with the same identity have the same contents |
| Boards.AllocateKeepsCoherent | src/ExcalidrawClone.jsx:374 | a fresh array leaves every array in use as it was |
| Boards.Write | src/ExcalidrawClone.jsx:374 | `setElements` shows the updated list; it is the same board iff the updater kept `prev`, and a new array takes a fresh identity |
| Boards.WriteCoherent | src/ExcalidrawClone.jsx:433 | a write keeps the board coherent, and a new array is told apart from the one it replaces |
| Boards.Settle | src/ExcalidrawClone.jsx:430-438 | the effect changes only the history; it records iff the shown array is not the current entry |
| Boards.SettleSyncs | src/ExcalidrawClone.jsx:430-438 | after the effect the history's current entry is the shown array |
| Boards.UndoBoard | src/ExcalidrawClone.jsx:441-447 | undo shows the previous entry, the same array, iff the index is positive |
| Boards.UndoCoherent | src/ExcalidrawClone.jsx:441-447 | undo keeps the board coherent |
| Boards.SaveSnapshot | src/ExcalidrawClone.jsx:466-481 | saving is refused iff the name is blank; otherwise a copy of the elements and the camera is appended and the board is unchanged |
| Boards.SaveCoherent | src/ExcalidrawClone.jsx:466-481 | saving keeps the board coherent |
| Boards.LoadSnapshot | src/ExcalidrawClone.jsx:483-487 | loading shows the snapshot's own array |
| Boards.LoadCoherent | src/ExcalidrawClone.jsx:483-487 | loading keeps the board coherent |
| Boards.DeleteSnapshot | src/ExcalidrawClone.jsx:489-491 | deleting keeps only snapshots with other ids and leaves the board as it was |
| Session.Init | src/ExcalidrawClone.jsx:354-405 | the start state shows the persisted elements as the only history entry, with the select tool, nothing selected and nothing edited |
| Session.SetElements | src/ExcalidrawClone.jsx:374 | `setElements` applies the update and leaves the history to the effect |
| Session.SetElementsSound | src/ExcalidrawClone.jsx:433 | `setElements` keeps the state sound |
| Session.Step | src/ExcalidrawClone.jsx:428-438 | every event, handler plus history effect, keeps the invariant (coherent board, history caught up, gesture state fitting the action) |
| Session.WorldAt | src/ExcalidrawClone.jsx:819-914 | without grid snapping, the pointer's world point is the screen-to-world map |
| Session.Created | src/ExcalidrawClone.jsx:892-913 | a creating press makes an element of the tool's type with the given id |
| Session.OnPointerDown | src/ExcalidrawClone.jsx:821-914 | a press is ignored while text is edited; otherwise it keeps the camera and history and starts a gesture whose state fits it |
| Session.BrushGateAsWrittenNeverOpens | src/ExcalidrawClone.jsx:995-1001 | as written, the brush throttle stays shut until an erase has happened |
| Session.BrushGateCorrectedOpens | src/ExcalidrawClone.jsx:995-1001 | corrected, the throttle opens iff the pointer is more than 3/zoom from the press point |
| Session.OnPointerMove | src/ExcalidrawClone.jsx:916-1061 | a move is ignored while text is edited (the canvas has no handlers then, lines 1509-1513); otherwise it keeps the tool, the action, the selection, the editing state and the zoom |
| Session.OnPointerUp | src/ExcalidrawClone.jsx:1063-1089 | a release is ignored while text is edited; otherwise it ends the gesture, and only the shape eraser changes the board on release |
| Session.OnDoubleClick | src/ExcalidrawClone.jsx:1092-1111 | a double click never changes the board; when it opens an element, that element is selected and its overlay shows |
| Session.OnUndo | src/ExcalidrawClone.jsx:441-447 | undo does nothing at the first entry; otherwise it shows the previous entry and deselects |
| Session.OnKeyDown | src/ExcalidrawClone.jsx:1137-1194 | keys never change the zoom, the action or the snapshots, and only Ctrl+Z touches the history |
| Session.OnSnapshotSaved | src/ExcalidrawClone.jsx:466-481 | saving changes nothing iff the name is blank; otherwise it appends a snapshot of the shown elements and camera |
| Session.OnSnapshotLoaded | src/ExcalidrawClone.jsx:483-487 | loading shows the snapshot's elements under its camera |
| Session.Handle | src/ExcalidrawClone.jsx:821-1194 | no handler but undo touches the history |
| Session.OnPointer | src/ExcalidrawClone.jsx:821-1111 | the canvas handlers leave the history to the effect |
| Session.OnControl | src/ExcalidrawClone.jsx:1973-1976 | tool, zoom and eraser controls never touch the board, the gesture or the editing state; the wheel zooms about the pointer, except while a text is edited, when the canvas takes no pointer events (lines 1216, 1525) and the wheel changes nothing |
| Session.OnEdit | src/ExcalidrawClone.jsx:1585-1604 | panel edits keep the camera, the gesture and the snapshots |
| Session.OnSnapshotPanel | src/ExcalidrawClone.jsx:466-491 | the snapshot panel keeps the gesture |
| Session.Visible | src/ExcalidrawClone.jsx:629-631 | the canvas draws every element without a filter, and otherwise a subsequence of them |
| Session.PointerDownSound | src/ExcalidrawClone.jsx:821-914 | a press keeps the state sound |
| Session.EraserDownSound | src/ExcalidrawClone.jsx:839-857 | an eraser press keeps the state sound |
| Session.CreateDownSound | src/ExcalidrawClone.jsx:892-913 | a creating press keeps the state sound |
| Session.PointerMoveSound | src/ExcalidrawClone.jsx:916-1061 | a move keeps the state sound |
| Session.PointerUpSound | src/ExcalidrawClone.jsx:1063-1089 | a release keeps the state sound |
| Session.KeyDownSound | src/ExcalidrawClone.jsx:1137-1194 | a key keeps the state sound |
| Session.PointerSound | src/ExcalidrawClone.jsx:821-1111 | every canvas event keeps the state sound |
| Session.EditSound | src/ExcalidrawClone.jsx:1585-1604 | every panel edit keeps the state sound |
| Session.SnapshotPanelSound | src/ExcalidrawClone.jsx:466-491 | every snapshot button keeps the state sound |
| Session.HandleSound | src/ExcalidrawClone.jsx:821-1194 | every event keeps the state sound |
| Behaviour.StepRecords | src/ExcalidrawClone.jsx:430-438 | any event but undo appends to the history exactly when it put a different array on the board |
| Behaviour.UndoStep | src/ExcalidrawClone.jsx:1139-1142 | Ctrl+Z shows the previous history entry, deselects, and records nothing |
| Behaviour.UndoAtStartIsIgnored | src/ExcalidrawClone.jsx:441-447 | Ctrl+Z at the first entry changes nothing |
| Behaviour.UndoRevertsStep | src/ExcalidrawClone.jsx:430-447 | undo right after any change brings back the previous array and history position |
| Behaviour.DrawingPress | src/ExcalidrawClone.jsx:892-898 | a press with a drawing tool adds the new element on top, selects it and starts drawing |
| Behaviour.PressWithDrawingTool | src/ExcalidrawClone.jsx:892-898 | the new element is on top and selected, and one undo removes it again |
| Behaviour.PlacingPress | src/ExcalidrawClone.jsx:900-913 | a text or pin press adds the element, opens it for editing and returns to the select tool |
| Behaviour.PressWithPlacingTool | src/ExcalidrawClone.jsx:900-913 | as above, over a whole event |
| Behaviour.PointerWhileEditingIgnored | src/ExcalidrawClone.jsx:1509-1513 | while text is edited, no press, move, release or double click on the canvas changes anything |
| Behaviour.WheelWhileEditingIgnored | src/ExcalidrawClone.jsx:1525 | while text is edited, a wheel turn on the canvas changes nothing, the camera included |
| Behaviour.CtrlSPans | src/ExcalidrawClone.jsx:1143-1166 | Ctrl+S does not stop the handler: besides the snapshot dialog it pans the view by the S key's step, leaving the board alone |
| Behaviour.Moves | src/ExcalidrawClone.jsx:916-1061 | a run of pointer moves keeps the invariant |
| Behaviour.BrushPress | src/ExcalidrawClone.jsx:849-852 | a brush press starts erasing from the press point with no erase point yet, and changes no element |
| Behaviour.BrushDragNeverErases | src/ExcalidrawClone.jsx:995-1040 | as written, a brush drag changes nothing however the pointer moves |
| Behaviour.BrushDragErasesCorrected | src/ExcalidrawClone.jsx:995-1040 | corrected, the first move beyond 3/zoom erases around the pointer and becomes the erase point |
| Behaviour.ShapePress | src/ExcalidrawClone.jsx:853-857 | a shape-eraser press starts an area at the press point and changes no element |
| Behaviour.ShapeDrag | src/ExcalidrawClone.jsx:1045-1047 | dragging stretches the area from the press point to the pointer |
| Behaviour.ShapeRelease | src/ExcalidrawClone.jsx:1071-1085 | releasing erases by the area and ends the gesture |
| Behaviour.ShapeEraseGesture | src/ExcalidrawClone.jsx:853-1085 | press, drag and release leave what the area eraser keeps for the rectangle between the two points |
| Behaviour.SelectPress | src/ExcalidrawClone.jsx:862-890 | a select press on the selected element starts moving it from a copy taken at the press; otherwise it selects the top-most element under the pointer; on empty canvas it drops the selection and starts panning; the board is never changed |
| Behaviour.SelectPressStep | src/ExcalidrawClone.jsx:862-890 | the same three outcomes for a whole step, with the elements untouched |
| Behaviour.PointPress | src/ExcalidrawClone.jsx:839-848 | a point-eraser press removes the top-most element hit and deselects, and a miss changes nothing |
| Behaviour.PointEraseRemovesTop | src/ExcalidrawClone.jsx:839-848 | as above, over a whole event |
| Behaviour.DeleteKey | src/ExcalidrawClone.jsx:1183-1189 | Delete or Backspace removes the selection and deselects, unless text is edited |
| Behaviour.DeleteKeyRemovesSelection | src/ExcalidrawClone.jsx:1183-1189 | as above, over a whole event |
| Behaviour.PanPress | src/ExcalidrawClone.jsx:832-836 | a pan press captures the pointer and the camera and starts panning |
| Behaviour.PanDragFollowsPointer | src/ExcalidrawClone.jsx:832-936 | after a pan press and a move, the grabbed world point is under the pointer and the board is unchanged |
| Behaviour.DoubleClickOpensText | src/ExcalidrawClone.jsx:1092-1111 | double-clicking the top-most text or pin selects and opens it without changing the board |
| Behaviour.Typing | src/ExcalidrawClone.jsx:1585-1589 | typing writes the text into the edited element and keeps the overlay open |
| Behaviour.TypingStep | src/ExcalidrawClone.jsx:1585-1589 | as above, over a whole event |
| Behaviour.BlurStep | src/ExcalidrawClone.jsx:1590-1597 | blurring commits the overlay's text and closes it |
| Behaviour.TypingThenBlurCommits | src/ExcalidrawClone.jsx:1585-1597 | what was typed before the blur does not matter; the final text is what is committed |
| Behaviour.SaveStep | src/ExcalidrawClone.jsx:466-481 | saving appends a snapshot of the elements and camera under the name, and leaves the board as it was |
| Behaviour.BlankSnapshotNameRefused | src/ExcalidrawClone.jsx:467 | a blank snapshot name changes nothing |
| Behaviour.LoadStep | src/ExcalidrawClone.jsx:483-487 | loading shows the snapshot's elements under its camera |
| Behaviour.SaveThenLoadRestores | src/ExcalidrawClone.jsx:466-487 | saving and then loading at once shows the same elements under the same camera |
| Behaviour.ToolChangeDeselects | src/ExcalidrawClone.jsx:1973-1976 | choosing a tool other than select drops the selection, and the board is untouched |
| Colors.Utf16 | src/ExcalidrawClone.jsx:30 | a string has at least as many code units as characters, and exactly as many when every character is in the basic plane |
| Colors.Utf16RoundTrip | src/ExcalidrawClone.jsx:30 | the code units read back as the string, so no two strings share their units |
| Colors.SurrogatePairReadsBack | src/ExcalidrawClone.jsx:30 | a character above U+FFFF becomes a high surrogate followed by a low surrogate, which together give the character back |
| Colors.ToInt32 | src/ExcalidrawClone.jsx:21-23 | ToInt32 gives the signed 32-bit value congruent to the input modulo 2^32 |
| Colors.Channel | src/ExcalidrawClone.jsx:21-23 | `(n >> k) & 255` is a byte |
| Colors.ChannelIsUnsignedByte | src/ExcalidrawClone.jsx:21-23 | a channel is the byte of the unsigned 32-bit value, whatever the sign of the input |
| Colors.ChannelsOfBytes | src/ExcalidrawClone.jsx:21-23 | the channels of r·65536 + g·256 + b are r, g and b |
| Colors.HexDigit | src/ExcalidrawClone.jsx:18-20 | a code unit has a hex value iff it is 0-9, a-f or A-F |
| Colors.HexValue | src/ExcalidrawClone.jsx:18-20 | the value of n hex digits is below 16^n |
| Colors.ParseHexDigits | src/ExcalidrawClone.jsx:18-20 | `parseInt(s, 16)` of all-digit input is its base-16 value |
| Colors.HexToRgba | src/ExcalidrawClone.jsx:16-25 | the result's channels are bytes, and its alpha is the one given |
| Colors.HexRoundTrip | src/ExcalidrawClone.jsx:16-25 | reading a `#rrggbb` colour gives back its channels |
| Colors.ShortHexExpands | src/ExcalidrawClone.jsx:18-19 | `#abc` reads as `#aabbcc` |
| Colors.UnreadableIsBlack | src/ExcalidrawClone.jsx:16-25 | a string `parseInt` cannot read gives black, because NaN shifts to 0 |
| Colors.HashIsPolyHash | src/ExcalidrawClone.jsx:27-31 | the hash, reduced modulo 2^32, is the 31-multiplier polynomial hash of the code units |
| Colors.HashMagnitude | src/ExcalidrawClone.jsx:27-31 | the hash grows by at most 2^31 + 2^16 per code unit |
| Colors.HashIsExact | src/ExcalidrawClone.jsx:27-31 | for strings under four million code units the hash stays below 2^53, so double arithmetic is exact |
| Colors.StringToColorIsPolyHashBytes | src/ExcalidrawClone.jsx:27-36 | the tag colour is the three low bytes of the polynomial hash |
| Colors.ByteWraps | src/ExcalidrawClone.jsx:35 | `(v + 256) % 256` leaves a byte unchanged |
| Colors.RgbString | src/ExcalidrawClone.jsx:35 | the colour string starts with `r`, not `#` |
| Colors.TagFillAsWrittenIsBlack | src/ExcalidrawClone.jsx:718 | as written, every tag label on a pin is filled black at 0.8 opacity |
| Colors.TagFillIsTagColour | src/ExcalidrawClone.jsx:2407 | corrected, a tag label is filled with the tag's own panel colour at 0.8 opacity |

## Left out

- Rendering (canvas drawing, the grid, the selection outline, themes). It is output only, and beyond the tag fill colour nothing in it is checked.
- React plumbing. Re-render scheduling and `needsRender` are left out.
- Session.OnPointerUp: deselects a just-drawn element at the release itself. The source does it in a 150 ms `setTimeout`, so an event in between still sees the selection.
- `seededRandom`, `generateId`, `Math.random` and the clock. They are parameters of the events (`newId`, `random`, `timestamp`).
- Persistence and file I/O. `localStorage`, import/export and reading an image through `FileReader` are left out; the upload enters the model as the finished data URL.
- The eraser hover highlight and the cursor animation frame. They are visual and do not change the board.
- Modals, the landing page, the tutorial, theme switching and the other keyboard shortcuts. They are UI state with no effect on elements. Redo has no button or key in the component.
- The other UI files (`components/`, `app/`, `src/ui/`). They only forward clicks to the handlers modelled here.
- Session.Init: requires a positive zoom. The persisted camera is read from storage, which is outside the model.
- Double-precision arithmetic. All coordinates are reals, so rounding in hit tests, zoom and panning is not modelled. Colors.HashIsExact shows the one place where this matters for whole numbers.
- Colors.ParseHexDigits: the value is exact. JavaScript rounds a hex number of more than 13 digits to a double.
- Colors.HexToRgba: returns the channels and alpha, not the `rgba(...)` string. Number-to-string formatting of alpha is not modelled.
- Scene.SetText and Scene.CommitText: write the text only into a text or pin. The source writes it into whatever element has the edited id, but only texts and pins are ever opened for editing.
- Scene.SetImageData: changes only image elements. The source adds the field to whatever element is selected, where nothing reads it.
- The toolbar's undo button. It calls the same `undo` as Ctrl+Z (line 1629), so it is the transition of `Behaviour.UndoStep` and has no event of its own.
- Session.OnKeyDown: `preventDefault` is not modelled. The pan keys call it even while the text overlay has focus, which blocks typing w/a/s/d there; the model only records the camera moving.
- Session.OnPointerDown: reads the eraser mode chosen last. In the source the memoised press handler does not list `eraserMode` among its dependencies (line 914), so after switching the mode (line 2022) a press can still run the previous mode's branch until another dependency changes. Stale closures are not modelled.

## Findings

| source | as written | input that shows it | evidently intended | confidence | as-written member | corrected member |
|---|---|---|---|---|---|---|
| src/ExcalidrawClone.jsx:1081 | the area eraser's overlap test compares `bounds.minY > minY` | a rectangle from (10, 10) to (20, 20), dragged over from (0, 0) to (100, 100): it lies inside the area and survives | `bounds.minY > maxY`, the standard box-separation test | not executed | Scene.AreaEraseMissesInsideElement | Scene.AreaEraseIntendedRemoves |
| src/ExcalidrawClone.jsx:995-1001 | the brush throttle measures from `startPoint.lastErasedX \|\| worldX`, which is the pointer itself until the first erase, and only an erase sets it | any brush drag: the distance is always 0, so nothing is ever erased | measure from the press point until the first erase | not executed | Behaviour.BrushDragNeverErases | Behaviour.BrushDragErasesCorrected |
| src/ExcalidrawClone.jsx:718 | tag labels on pins are filled with `hexToRgba(stringToColor(tag), 0.8)`, but `stringToColor` returns `rgb(...)`, which `parseInt` reads as NaN | any tag, for example `"a"`: its label is black | the tag's own colour, as in the tag panel (line 2407), at 0.8 opacity | not executed | Colors.TagFillAsWrittenIsBlack | Colors.TagFillIsTagColour |
