# Keyframe annotation of tracked objects in a video

This project models the core of `VideoAnnotationForTracking.py`, a tool for
annotating objects in a video with bounding boxes. A user steps through the
frames and places a box on a few **keyframes** of each object. The tool
interpolates the box on every frame in between, and saves one row per frame.

Each module below follows one part of the program:

- `BoundingBox`: the box. It has a fixed, positive, even size and a mutable
  top-left corner. The centre and the bottom-right corner are derived from
  the top-left corner. It is the class `BBox`, with setters and moves.
- `Rounding`: Python's `round` (half to even) of an exact fraction, and the
  linear interpolation of one coordinate between two keyframes.
- `Timeline`: one object as a value (`ObjState`):
  - the start and end of its interval;
  - its keyframe map from frame to top-left corner;
  - the object invariant;
  - one specification function per operation;
  - the interpolated box at any frame (`BoxAt`).
- `Objects`: the class `Obj`. Its methods change the keyframe map in place,
  with the source's deletion loops and scan loops. The methods that model an
  operation of the source are proved equal to its `Timeline` function;
  `DropKeys` and `SetKeyBox` state their effect on the keyframe map directly.
- `Rows`: the row codec. A row is `frame, tlx, tly, w, h`, with the frame
  numbered from 1. The module defines:
  - the "key" and "all" outputs of an object;
  - the loading of an object from its key rows;
  - the save/load round trip.
- `Session`: the class `Vid`. It holds the objects, the active object, the
  active frame and the active box. It provides the navigation and editing
  commands, loading at start-up, and saving.

Three behaviours of the source are kept as written:

- The move guards test the other axis. Moving up or down tests `tlx`, and
  moving left or right tests `tly`.
- Deleting the current object deletes the first object.
- Marking or unmarking a keyframe does not recompute the active box.

The source hands out the stored keyframe box itself as the active box. The
model gives it a value instead and writes it back to the keyframe when the box
moves. `Session.Vid.Valid` states the coherence this keeps:

- there is no active box exactly when the active frame is outside the active
  object's interval;
- at a keyframe, the active box is the stored box.

Every command also states what it allocates: a box or object it creates is new,
and every other object it holds was held before. A caller that may modify the
session, its objects and its active box can therefore issue commands one after
another, starting from a newly constructed session.

## Model

| member | source | states |
|---|---|---|
| BoundingBox.CentreOf | VideoAnnotationForTracking.py:299-302 | with an even size the centre is exactly half-way between the top-left corner and the bottom-right corner (`BottomRightOf`, which `BBox.Br` returns: the top-left plus the size, as on line 302) |
| BoundingBox.BBox.Valid | VideoAnnotationForTracking.py:240-245 | the box invariant: width and height are positive and even, as the constructor asserts; the constructor establishes it and the centre needs it |
| BoundingBox.BBox.constructor | VideoAnnotationForTracking.py:237-251 | a new box has the requested size and its top-left corner at the origin |
| BoundingBox.BBox.SetTl | VideoAnnotationForTracking.py:253-261 | the top-left corner becomes the given point |
| BoundingBox.BBox.SetCp | VideoAnnotationForTracking.py:263-271 | the centre becomes exactly the given point (the size is even); the top-left is the point minus half the size |
| BoundingBox.BBox.SetBr | VideoAnnotationForTracking.py:273-281 | the bottom-right corner becomes exactly the given point |
| BoundingBox.BBox.MoveUp | VideoAnnotationForTracking.py:283-285 | y decreases by the given pixels, x unchanged |
| BoundingBox.BBox.MoveDown | VideoAnnotationForTracking.py:287-289 | y increases by the given pixels, x unchanged |
| BoundingBox.BBox.MoveLeft | VideoAnnotationForTracking.py:291-293 | x decreases by the given pixels, y unchanged |
| BoundingBox.BBox.MoveRight | VideoAnnotationForTracking.py:295-297 | x increases by the given pixels, y unchanged |
| Rounding.RoundHalfEven | VideoAnnotationForTracking.py:403-407 | the result is within half a unit of n/d, and an exact half goes to the even neighbour |
| Rounding.RoundWithin | VideoAnnotationForTracking.py:403-407 | rounding a fraction that lies between two integers stays between them |
| Rounding.RoundExact | VideoAnnotationForTracking.py:403-407 | rounding an integer gives the integer back |
| Rounding.Interp | VideoAnnotationForTracking.py:403-407 | the interpolation is the first key's value at the first key and the second key's at the second; in between it lies between the two values |
| Timeline.Valid | VideoAnnotationForTracking.py:306-385 | the object invariant: the start lies before the end inside the video, both are keyframes, every keyframe lies in [start, end], and the box size is positive and even; every operation of the object is proved to keep it |
| Timeline.Init | VideoAnnotationForTracking.py:306-320 | a new object is valid, spans the whole video, and has keyframes only at frame 0 and the last frame, both holding a box at the origin |
| Timeline.BoxOrOrigin | VideoAnnotationForTracking.py:341 | the box stored when a bound is set without one: the given box, or a box at the origin when none was given (also line 364) |
| Timeline.StaMoved | VideoAnnotationForTracking.py:322-343 | keeps the invariant. A start at or after the end changes nothing. Otherwise: the start becomes f; f holds the given box or the origin; exactly the keys in [old start, f) are removed; every other key keeps its box; the end is unchanged |
| Timeline.EndMoved | VideoAnnotationForTracking.py:345-366 | keeps the invariant. An end at or before the start changes nothing. Otherwise: the end becomes f; f holds the given box or the origin; exactly the keys in (f, old end] are removed; every other key keeps its box; the start is unchanged |
| Timeline.KeyMarked | VideoAnnotationForTracking.py:368-375 | keeps the invariant; outside the open interval nothing changes; inside it, f holds the given box and every other key is unchanged |
| Timeline.KeyUnmarked | VideoAnnotationForTracking.py:377-385 | keeps the invariant; the start and end frames cannot be unmarked; any other frame loses its key and nothing else changes |
| Timeline.PrevKey | VideoAnnotationForTracking.py:393-397 | the greatest key strictly before f |
| Timeline.NextKey | VideoAnnotationForTracking.py:398-402 | the least key strictly after f |
| Timeline.BoxAt | VideoAnnotationForTracking.py:387-410 | no box exactly when f is outside [start, end]; at a keyframe, the stored box |
| Timeline.PrevKeyIs | VideoAnnotationForTracking.py:393-397 | the backward scan from f stops at the key just below the gap that holds f |
| Timeline.NextKeyIs | VideoAnnotationForTracking.py:398-402 | the forward scan from f stops at the key just above the gap that holds f |
| Timeline.BoxAtBetweenKeys | VideoAnnotationForTracking.py:387-410 | between adjacent keyframes a box exists, and each coordinate lies between the two keys' coordinates |
| Timeline.BoxAtConstantBetweenKeys | VideoAnnotationForTracking.py:387-410 | if two adjacent keyframes hold the same box, every frame between them holds it too |
| Timeline.BoxAtExample | VideoAnnotationForTracking.py:403-407 | keys (0,0) at frame 0 and (90,0) at frame 9 give (30,0) at frame 3 |
| Timeline.BoxAtTieFrame1 | VideoAnnotationForTracking.py:403-407 | exact halves round to the even coordinate: (0,2) at frame 1 between (0,0) at frame 0 and (2,6) at frame 4 |
| Timeline.BoxAtTieFrame3 | VideoAnnotationForTracking.py:403-407 | exact halves round to the even coordinate: (2,4) at frame 3 between (0,0) at frame 0 and (2,6) at frame 4 |
| Timeline.SetStaExample | VideoAnnotationForTracking.py:333-337 | moving the start from 0 to 4 discards the keyframe at 2 |
| Objects.Obj.constructor | VideoAnnotationForTracking.py:306-320 | the new object's state is `Init` |
| Objects.Obj.IsKeyFra | VideoAnnotationForTracking.py:412-413 | a frame is a keyframe exactly when the keyframe map holds it |
| Objects.Obj.DropKeys | VideoAnnotationForTracking.py:335-337 | the deletion loop removes exactly the keyframes of the frames [lo, hi) and keeps every other keyframe with its box; the start and end are unchanged |
| Objects.Obj.SetKeyBox | VideoAnnotationForTracking.py:387-391 | the stored box of a keyframe follows a moved active box, as the shared box object does in the source; a frame that is not a keyframe does not become one, and the bounds and the invariant are kept |
| Objects.Obj.SetStaFra | VideoAnnotationForTracking.py:322-343 | the deletion loop and the updates leave the object in state `StaMoved` of the old state, which is valid |
| Objects.Obj.SetEndFra | VideoAnnotationForTracking.py:345-366 | the deletion loop and the updates leave the object in state `EndMoved` of the old state, which is valid |
| Objects.Obj.MarkKeyFra | VideoAnnotationForTracking.py:368-375 | the new state is `KeyMarked` of the old state |
| Objects.Obj.UnmarkKeyFra | VideoAnnotationForTracking.py:377-385 | the new state is `KeyUnmarked` of the old state |
| Objects.Obj.GetBbox | VideoAnnotationForTracking.py:387-410 | the two scans and the interpolation return exactly `BoxAt` of the state |
| Rows.RowsMap | VideoAnnotationForTracking.py:474-477 | the decoding of key rows: each row maps its frame, back to 0-based, to its top-left corner, a later row for the same frame replacing an earlier one |
| Rows.RowOf | VideoAnnotationForTracking.py:625 | a row written for frame f with top-left tl decodes back to the single keyframe f -> tl |
| Rows.RowAt | VideoAnnotationForTracking.py:622-625 | the row of frame f is numbered f+1, has the object's size, and holds the stored box at a keyframe |
| Rows.KeyRowsUpTo | VideoAnnotationForTracking.py:621-627 | key rows lie inside the interval (frames numbered from 1) and have the object's size |
| Rows.KeyRowsUpToAscending | VideoAnnotationForTracking.py:621-627 | the key rows come in strictly ascending frame order |
| Rows.AllRowsUpTo | VideoAnnotationForTracking.py:621-628 | one row per frame from the start, numbered from start+1, with the object's size |
| Rows.AllRowsUpToBoxes | VideoAnnotationForTracking.py:621-628 | the i-th row of the all output is the row of frame start+i, holding the interpolated box |
| Rows.KeyRowsUpToMap | VideoAnnotationForTracking.py:621-627 | the key rows of the frames below hi describe exactly the keyframes below hi |
| Rows.KeyRowsUpToMapStep | VideoAnnotationForTracking.py:625-627 | one iteration of the save loop adds to the key output exactly the keyframe of its frame, if that frame is a keyframe |
| Rows.KeyRows | VideoAnnotationForTracking.py:618-630 | the "key" output of an object: the key rows of its whole interval; `KeyRowsAreKeyframes` and `KeyRowsEnds` state what it holds |
| Rows.AllRows | VideoAnnotationForTracking.py:618-630 | the "all" output of an object: one row per frame of its interval; `AllRowsCoverInterval` states what it holds |
| Rows.KeyRowsAreKeyframes | VideoAnnotationForTracking.py:618-630 | the key output is ascending and describes exactly the object's keyframe map |
| Rows.AllRowsCoverInterval | VideoAnnotationForTracking.py:618-630 | the all output has end - start + 1 rows, one per frame of the interval, each with the box `BoxAt` gives |
| Rows.KeyRowsEnds | VideoAnnotationForTracking.py:618-630 | the key output has at least two rows; the first is the start keyframe and the last the end keyframe |
| Rows.Middle | VideoAnnotationForTracking.py:474 | a key file of at least two rows is its first row, then the middle rows, then its last row; a shorter file has no middle rows |
| Rows.MarkRows | VideoAnnotationForTracking.py:474-477 | marking rows keeps the invariant, the interval, the frame count and the box size |
| Rows.MarkRowsMap | VideoAnnotationForTracking.py:474-477 | rows strictly inside the interval add exactly their keyframes, later rows overriding earlier ones |
| Rows.MarkRowsStep | VideoAnnotationForTracking.py:474-477 | marking one more row is one more `KeyMarked` on the result so far |
| Rows.LoadBounds | VideoAnnotationForTracking.py:468-473 | the first and last rows set the start and end of a fresh object, which stays valid |
| Rows.Load | VideoAnnotationForTracking.py:463-477 | loading a key file gives a valid object of the video's frame count and box size |
| Rows.LoadFromBounds | VideoAnnotationForTracking.py:468-473 | when the first and last rows are an object's ends, the fresh object gets that interval and those two keyframes |
| Rows.MiddleKeyRows | VideoAnnotationForTracking.py:474-477 | the two ends plus the keyframes of the middle key rows are the object's keyframe map |
| Rows.SaveLoadRoundTrip | VideoAnnotationForTracking.py:463-477 | loading the key rows an object saves gives back the same object: interval, keyframes and boxes |
| Session.MoveAllowed | VideoAnnotationForTracking.py:551-589 | the guard of each move, testing the other axis as written |
| Session.MoveResult | VideoAnnotationForTracking.py:551-589 | the net effect of a move command on the active top-left corner: no box stays no box; the corner moves only when the guard for the direction holds |
| Session.KeysUpToAscending | VideoAnnotationForTracking.py:519 | the keys below hi, listed in frame order, are strictly ascending |
| Session.SortedKeys | VideoAnnotationForTracking.py:519 | the object's keys in strictly ascending order, all of them, from the start to the end |
| Session.SortedNeighboursAdjacent | VideoAnnotationForTracking.py:519-525 | neighbours in the sorted keys have no key between them |
| Session.MidFra | VideoAnnotationForTracking.py:506-527 | the middle frame lies within the object's interval |
| Session.MidFraInside | VideoAnnotationForTracking.py:516-526 | inside the interval, the middle frame is (lo+hi)//2 for the keys lo <= a < hi around a, and lies in [lo, hi) |
| Session.MidFraBeforeStart | VideoAnnotationForTracking.py:508-511 | at or before the start, the middle frame is half-way between the start and the next key |
| Session.MidFraAfterEnd | VideoAnnotationForTracking.py:512-515 | at or after the end, the middle frame is half-way between the key before the end and the end |
| Session.CurrGap | VideoAnnotationForTracking.py:516-525 | the sorted-key scan finds adjacent keys lo <= a < hi |
| Session.MidFraOf | VideoAnnotationForTracking.py:506-527 | the three cases of the source (before the start, after the end, inside) compute exactly `MidFra` |
| Session.MoveGuarded | VideoAnnotationForTracking.py:551-589 | the box moves by the pixels (`Moved`: one coordinate shifts, the other stays) exactly when the guard for its direction holds |
| Session.MarkRowsInto | VideoAnnotationForTracking.py:474-477 | the loop over the middle rows leaves the object in state `MarkRows` of the old state |
| Session.LoadInto | VideoAnnotationForTracking.py:466-477 | replaying a key file on a fresh object (start from the first row, then end from the last row, giving `LoadBounds`; then the middle rows, giving `MarkRows`) gives the state `Load` |
| Session.SaveRows | VideoAnnotationForTracking.py:621-628 | one pass over the interval builds exactly the key output `KeyRows` and the all output `AllRows` |
| Session.Vid.Valid | VideoAnnotationForTracking.py:485-486 | the session invariant: the objects are valid and distinct, the active object and frame exist, the active box has the session size, it is missing exactly when the active frame is outside the active object's interval, and at a keyframe it is the stored box (which the source hands out itself, line 391) |
| Session.Vid.constructor | VideoAnnotationForTracking.py:455-483 | one object per key file, each in state `Load` of its rows, or one fresh object if there are none; the last object is active, at frame 0, and the invariant holds; every object and the active box are newly allocated |
| Session.Vid.LoadAll | VideoAnnotationForTracking.py:463-477 | loads one object per key file, in order, each in state `Load` of its rows, and makes the last one active; every loaded object is newly allocated |
| Session.Vid.LoadObj | VideoAnnotationForTracking.py:464-477 | appends one newly allocated object in state `Load` of the rows, leaves every earlier object and its state unchanged, and makes the new one active |
| Session.Vid.UpdateActiveBbox | VideoAnnotationForTracking.py:485-486 | the active box becomes the active object's box at the active frame, which establishes the invariant; a box it holds is newly allocated |
| Session.Vid.GoToStaFra | VideoAnnotationForTracking.py:488-490 | the active frame becomes the start, and the active box its stored box |
| Session.Vid.GoToEndFra | VideoAnnotationForTracking.py:492-494 | the active frame becomes the end, and the active box its stored box |
| Session.Vid.GoToPrevFra | VideoAnnotationForTracking.py:496-499 | at frame 0 nothing changes; otherwise the frame decreases by one; the active box is the box at the new frame |
| Session.Vid.GoToNextFra | VideoAnnotationForTracking.py:501-504 | at the last frame nothing changes; otherwise the frame increases by one; the active box is the box at the new frame |
| Session.Vid.GoToMidFra | VideoAnnotationForTracking.py:506-527 | the active frame becomes `MidFra` of the old frame, and the active box the box there |
| Session.Vid.GoToPrevObj | VideoAnnotationForTracking.py:529-532 | at the first object nothing changes; otherwise the previous object becomes active and the box is refreshed |
| Session.Vid.GoToNextObj | VideoAnnotationForTracking.py:534-537 | at the last object nothing changes; otherwise the next object becomes active and the box is refreshed |
| Session.Vid.CreateNewObj | VideoAnnotationForTracking.py:539-543 | appends a newly allocated whole-video object, keeps the others, makes it active and refreshes the box |
| Session.Vid.DelCurrObj | VideoAnnotationForTracking.py:545-549 | removes the first object and keeps the active index, or replaces a sole object with a newly allocated one; no other object is new; the box is refreshed |
| Session.Vid.MoveBbox | VideoAnnotationForTracking.py:551-589 | the active box moves as `MoveResult` says; at a keyframe the stored box moves with it, and no other key or bound changes |
| Session.Vid.MarkSta | VideoAnnotationForTracking.py:591-593 | the active object becomes `StaMoved` with the active box, and the box is refreshed |
| Session.Vid.MarkEnd | VideoAnnotationForTracking.py:595-597 | the active object becomes `EndMoved` with the active box, and the box is refreshed |
| Session.Vid.MarkKey | VideoAnnotationForTracking.py:599-600 | the active object becomes `KeyMarked` with the active box; the active box is unchanged |
| Session.Vid.UnmarkKey | VideoAnnotationForTracking.py:602-603 | the active object becomes `KeyUnmarked`; the active box is unchanged |
| Session.Vid.Save | VideoAnnotationForTracking.py:611-630 | for each object, in order, its key output is `KeyRows` and its all output is `AllRows` |

## Left out

- Video decoding and resizing with OpenCV, and the float scale. The session
  takes the frame count, width and height as parameters.
- The GUI: drawing, windows, key codes and dispatching keys to commands. The
  move commands are one method taking a direction and a fast flag, with the
  fast amount 40.
- Console input and program start-up.
- File and directory I/O. Saving returns the key and all rows of each object
  instead of writing `<n>_key.csv` and `<n>_all.csv`. Loading takes the key
  files' rows instead of listing the directory and reading `files_count // 2`
  files. Rows are integer tuples; the comma-separated text form is not modelled.
- Session.Vid.constructor: the width and height columns of a loaded row are not
  used. The boxes take the session's box size. The source builds the boxes from
  those columns and fails if they are not positive and even.
- Session.Vid.constructor: a directory holding a single file loads `1 // 2 == 0`
  objects in the source, whose refresh of the active box then fails with an index
  error at start-up. The model, given no key files, creates one fresh object.
- Session.Vid.constructor: an empty key file (which the source cannot parse)
  and a frame number outside the video (which fails the source's range assert)
  are excluded by preconditions.
- Rounding.Interp: float drift in the source's `ratio` is not modelled. The
  interpolation is exact (a fraction rounded half to even). This follows the
  code's `round`, which rounds ties to even, not away from zero.
- Objects.Obj.SetStaFra, Objects.Obj.SetEndFra: a call at the current start (or
  end) with no box would store no box in the source. It requires a box instead.
  Through the session this never happens, because a bound is a keyframe and so
  has an active box.
- Session.Vid.DelCurrObj: when the active object is the last of several, the
  source fails with an index error after deleting. A precondition excludes that
  case.
- Aliasing: the source shares box objects between the active box and
  the keyframe map. The model uses values and an explicit write-back, so aliasing
  among stored boxes themselves is not represented; the source creates none.
- The diagnostic messages printed on rejected calls; the model leaves the state
  unchanged there.
- The toggles for the frame and object information overlays.
