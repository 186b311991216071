# NewFace meme maker — a Dafny model of the editor's core

The NewFace meme maker is a single-screen browser editor. The user uploads a background
image, adds a fixed "new face" sticker, drags it around, resizes it with a slider, and
saves the composited result. Saved results go to a gallery that persists across page loads.
The component exists in two near-duplicate versions:

- `src/App.js` is the version the page mounts. It is modelled in module `MemeMaker`.
- `src/app.js` is an older variant. It is modelled in module `LegacyMemeMaker`.

Both versions share four pieces of pure behaviour. Each has its own module:

- `Drag`: the drag controller. It holds the overlay position, the dragging flag and the
  anchor point. A move adds the delta from the previous point, then re-anchors.
  `Telescoping` proves that the net displacement of a drag is the last point minus the
  grab point. `IncrementalMatchesAbsolute` proves that the controller agrees, on every
  event sequence, with an absolute-offset design: remember the overlay/grab offset and
  place the overlay at pointer + offset.
- `Compositor`: `drawCanvas` as a list of 2D-context commands. A small semantics
  (`Execute`) interprets those commands on an abstract canvas: setting the size resets
  the bitmap, a clear that covers the canvas empties it, and draws stack layers. The
  contract of `Composite` says that from ANY prior canvas the commands produce `Picture`.
  `Picture` is the background at (0,0) at its natural size, with the face at
  (x, y, size, size) when one is loaded.
- `Gallery`: the in-memory list (newest first) and its copy under the `memeGallery`
  storage key. Storage is `Option<seq<string>>`, where `None` means the key is absent.
- `MemeMaker` / `LegacyMemeMaker`: an immutable editor record with a pure `Handle` per
  event. After each handler, the `Redraw` effect runs on the committed state.
  `Step = Redraw ∘ Handle`, and `Run` folds `Step` over an event sequence. Each module
  has an `Invariant` that holds from `Startup` across every event sequence.

Modelling choices:

- Each asynchronous decode is one atomic event that carries the decoded image:
  `Upload(img)`, and `FaceDecoded(w, h)` for the `/newface.png` asset.
- `Image` is a source string plus a natural width and height.
- Encoded gallery entries (`toDataURL` output) are opaque strings. `SaveClick` receives
  them as a parameter.
- A mouse-down can only reach the overlay `<img>`. That element is rendered only while
  both images are present (`OverlayVisible`); otherwise the event is a no-op.
- In `App.js`, a touch-start on the container begins a drag even when the overlay is
  not shown. The editor records whether the touch began on the overlay `<img>`. Such a
  touch's moves reach both the overlay's and the container's `onTouchMove`, and the
  model applies both (see Findings).
- A blank canvas is the HTML default, 300 by 150 and empty.

The two versions differ in these ways, all reflected in the model:

- `App.js` guards `loadFaceImage` (`if (faceImage) return`), keeps a `faceLoaded` flag
  that moves with the face, and redraws automatically only when both a background and
  a loaded face are present.
- `App.js` handles touch events, and its download, tweet and save buttons call
  `drawCanvas` first.
- `app.js` reloads the face on every click and redraws whenever a background exists.
  Its export buttons do not redraw.
- `app.js`'s `drawCanvas` has no upload guard. With no upload it sets the image source
  to `null`, which the browser treats as the relative URL `null`. That fetch does not
  decode as an image, so `onload` never draws. The model gives that the
  same empty command list as `App.js`'s explicit guard.
- Automatic redraw is not triggered on every state change. In `App.js`, uploading a
  background before the face is loaded leaves the canvas as it was until Render,
  Download, Tweet or Save calls `drawCanvas`, or the face finishes loading
  (`UploadWithoutFaceKeepsCanvas`).
- Of the two variants modelled here, only `App.js` makes face loading idempotent.

## Model

| member | source | states |
|---|---|---|
| `Drag.Down` | src/App.js:97-100 | pointer/touch down starts dragging, anchors at the pointer, leaves the position alone; the overlay/pointer offset becomes position minus pointer |
| `Drag.Move` | src/App.js:101-107 | outside a drag nothing changes; inside one the position moves by pointer minus previous anchor, the anchor becomes the pointer, and the overlay/pointer offset is preserved |
| `Drag.Release` | src/App.js:85 | ending a drag clears the flag and keeps position and anchor |
| `Drag.MovesKeepOffset` | src/App.js:101-107 | over any run of moves during a drag the offset is invariant and the anchor ends on the last point |
| `Drag.Telescoping` | src/App.js:97-107 | after down at p0 and moves p1..pn the position is the pre-drag position plus pn − p0, independent of n |
| `Drag.ApplyAgrees` | src/App.js:97-107 | one pointer event keeps the incremental controller and the absolute-offset design in agreement |
| `Drag.IncrementalMatchesAbsolute` | src/App.js:84-107 | for every sequence of down/move/up events the incremental controller places the overlay where the absolute-offset design does |
| `Drag.StartMatchesAbsolute` | src/App.js:10-12 | from the initial position (50,50), not dragging, the two designs agree on every event sequence |
| `Drag.TouchMoveBubbled` | src/App.js:131-156 | as written: a touch move on the overlay also bubbles to the container, both handlers read one snapshot, and the overlay moves by the delta twice |
| `Drag.BubbledTouchMoveOvershoots` | src/App.js:151-154 | whenever the finger moves, the bubbled handling lands elsewhere than a single move and breaks the offset invariant |
| `Drag.BubbledMovesKeepDoubleOffset` | src/App.js:101-107 | over any run of bubbled touch moves during a drag, position minus twice the anchor is invariant and the anchor ends on the last point |
| `Drag.BubbledTelescoping` | src/App.js:131-156 | as written, a touch drag begun on the overlay at p0 and moved through p1..pn shifts the overlay by 2·(pn − p0) |
| `Drag.BubbledTouchMoveExample` | src/App.js:91-94 | grabbing the fresh overlay (spanning (50,50) to (150,150)) at (60,60) and moving to (70,60) gives (70,50) instead of (60,50) |
| `Compositor.Composite` | src/App.js:69-82 | no upload gives no commands; otherwise the first command sizes the canvas to the background and the commands turn any canvas into the intended picture |
| `Compositor.ExecuteComposite` | src/App.js:74-79 | executing resize, clear, background draw and optional face draw yields the intended picture |
| `Compositor.CanvasMatchesBackground` | src/App.js:75-79 | a W by H background gives a W by H canvas holding exactly the background at (0,0) at natural size, then (if loaded) the face at (x,y) at exactly size by size |
| `Compositor.NoUploadNoDraw` | src/App.js:70 | with no uploaded image the compositor leaves the canvas untouched |
| `Gallery.Startup` | src/App.js:17-20 | page load restores exactly the stored list, or the empty list when the key is absent, keeps storage as it was, and the result agrees with storage |
| `Gallery.Save` | src/App.js:61-67 | save yields one more entry, the new one first, the old list unchanged behind it, and storage holding exactly the new list |
| `Gallery.SavesListNewestFirst` | src/App.js:64 | after several saves the list is the new entries newest first followed by the older entries in order |
| `Gallery.SavesPersist` | src/App.js:61-66 | after any saves storage equals the in-memory list, so a page load restores it exactly |
| `MemeMaker.Startup` | src/App.js:7-20 | initial position (50,50), size 100, not dragging, anchor (0,0), no images, face not loaded, gallery restored from storage |
| `MemeMaker.Draw` | src/App.js:69-82 | without a background nothing changes; otherwise the canvas ends up showing the composite of the current state, whatever it showed before; only the canvas changes |
| `MemeMaker.Handle` | src/App.js:47-107 | only an upload changes the background, only a face load the face and its flag, only the slider the size, only a save the gallery (by `Gallery.Save`); the overlay moves only on a mouse or touch move during a drag; a handler repaints only with the composite |
| `MemeMaker.LoadFace` | src/App.js:37-45 | a no-op once a face is set; otherwise the face asset and the loaded flag are set together, and nothing else changes |
| `MemeMaker.Redraw` | src/App.js:22-24 | only the canvas changes; it is recomposited exactly when a dependency changed and both a background and a loaded face are present |
| `MemeMaker.StepInvariant` | src/App.js:22-24 | each event preserves: loaded flag iff face present, face is the fixed asset, gallery agrees with storage, canvas shows the composite once both images are loaded |
| `MemeMaker.RunInvariant` | src/App.js:22-24 | the invariant holds after any event sequence |
| `MemeMaker.SessionInvariant` | src/App.js:37-44 | in every session the loaded flag is set iff a face is present, the canvas is in step once both images are loaded, and a reload restores the gallery exactly |
| `MemeMaker.FaceLoadedOnce` | src/App.js:37-38 | once a face is set no later event replaces it |
| `MemeMaker.DownAnchors` | src/App.js:84-100 | mouse-down on the visible overlay or touch-start anchors a drag at the pointer and changes nothing else, a touch-start also recording whether it began on the visible overlay; with no overlay shown mouse-down does nothing |
| `MemeMaker.ReleaseEndsDrag` | src/App.js:85-95 | mouse-up, mouse-leave and touch-end clear the dragging flag and change nothing else |
| `MemeMaker.IdleMoveIgnored` | src/App.js:101-102 | a mouse or touch move outside a drag changes nothing |
| `MemeMaker.DragMoveShifts` | src/App.js:86-107 | a move during a drag re-anchors at the pointer and shifts the position by the delta from the anchor; for a touch begun on the overlay, by that delta twice |
| `MemeMaker.MovesFollowController` | src/App.js:86-107 | over a run of move events the editor's drag state is the single-move controller's for mouse moves and touches begun off the overlay, and the bubbled controller's for touches begun on it |
| `MemeMaker.DragTelescopes` | src/App.js:84-107 | a mouse-down on the overlay, or a touch begun off it, at p0 followed by moves shifts the overlay by the last point minus p0, independent of the number of moves |
| `MemeMaker.OverlayTouchDragDoubles` | src/App.js:131-156 | a touch begun on the overlay at p0 followed by touch moves shifts the overlay by twice the last point minus p0 |
| `MemeMaker.SavePrepends` | src/App.js:61-67 | save prepends the encoded canvas, storage holds the new list, and a reload restores it |
| `MemeMaker.NoUploadNoComposite` | src/App.js:69-70 | without a background, render, download, tweet and save leave the canvas as it is |
| `MemeMaker.UploadWithoutFaceKeepsCanvas` | src/App.js:22-24 | an upload before the face is loaded records the image but triggers no redraw |
| `LegacyMemeMaker.Startup` | src/app.js:7-20 | initial position (50,50), size 100, not dragging, anchor (0,0), no images, gallery restored from storage |
| `LegacyMemeMaker.Draw` | src/app.js:62-76 | with no background nothing changes (the source becomes the relative URL `null`, whose fetch does not decode as an image); otherwise the canvas ends up showing the composite, whatever it showed before; only the canvas changes |
| `LegacyMemeMaker.Handle` | src/app.js:41-93 | only an upload changes the background, every face load replaces the face, only the slider changes the size, only a save the gallery (by `Gallery.Save`); the overlay moves only on a mouse move during a drag; only Render repaints, and with the composite |
| `LegacyMemeMaker.LoadFace` | src/app.js:35-39 | every completed load installs the face asset, whatever was there, and changes nothing else |
| `LegacyMemeMaker.Redraw` | src/app.js:22-24 | only the canvas changes; it is recomposited exactly when a dependency changed and a background is present, face or not |
| `LegacyMemeMaker.StepInvariant` | src/app.js:22-24 | each event preserves: face is the fixed asset, gallery agrees with storage, canvas shows the composite once a background is uploaded |
| `LegacyMemeMaker.RunInvariant` | src/app.js:22-24 | the invariant holds after any event sequence |
| `LegacyMemeMaker.SessionInvariant` | src/app.js:15-24 | in every session the canvas is in step once a background exists, and a reload restores the gallery exactly |
| `LegacyMemeMaker.FaceReplaced` | src/app.js:35-39 | a completed face load replaces the face even when one was set |
| `LegacyMemeMaker.RedrawWithoutFace` | src/app.js:62-76 | with a background and no face, a change redraws the background alone |
| `LegacyMemeMaker.DownAnchors` | src/app.js:78-81 | mouse-down on the visible overlay anchors a drag and moves nothing; with no overlay shown it does nothing |
| `LegacyMemeMaker.ReleaseEndsDrag` | src/app.js:83-85 | mouse-up and mouse-leave clear the dragging flag and change nothing else |
| `LegacyMemeMaker.MoveShifts` | src/app.js:87-93 | a move outside a drag changes nothing; inside one it shifts by the delta from the anchor and re-anchors |
| `LegacyMemeMaker.MovesFollowController` | src/app.js:87-93 | over a run of moves the editor's drag state is exactly the drag controller's |
| `LegacyMemeMaker.DragTelescopes` | src/app.js:78-93 | a mouse-down at p0 and moves shift the overlay by the last point minus p0, independent of the number of moves |
| `LegacyMemeMaker.SavePrepends` | src/app.js:54-60 | save prepends the encoded canvas without redrawing, storage holds the new list, and a reload restores it |

## Left out

- File selection, `FileReader` and `Image` decoding: each decode is one atomic event carrying the decoded image. Overlapping uploads, and face loads still in flight when the button is clicked again, are not modelled.
- `MemeMaker.StepInvariant`, `MemeMaker.SessionInvariant`, `LegacyMemeMaker.StepInvariant`, `LegacyMemeMaker.SessionInvariant`: both editors' `Upload` event assumes the file decodes. The source stores the data URL before any decode, and `accept="image/*"` is only a hint. An undecodable upload sets `uploadedImage` and shows a draggable overlay, but no later draw ever repaints the canvas. The canvas clauses of these invariants say nothing about such an upload.
- `MemeMaker.Handle` tracks one touch at a time. The touch handlers read only `touches[0]`, and each finger keeps its own target. If a second finger starts off the overlay while the first is still down on it, the model records the touch as off the overlay. The first finger's moves still bubble from the overlay in the browser, so the source applies their delta twice.
- Canvas pixels and `toDataURL` encoding: draws are abstract commands on an abstract canvas, and encoded images are opaque strings passed to `SaveClick`.
- `localStorage` and `JSON.parse`/`JSON.stringify`: storage is an optional list. A malformed stored value, which would throw at startup, is not modelled.
- The tweet URL with `window.open`, and the download link click: these are fixed strings and browser side effects. Their only modelled effect is the `drawCanvas` call `App.js` makes first.
- The theme toggle, JSX layout, CSS classes, the `Button` component import, `tailwind.config.js` and `src/index.js`: presentation and bootstrap only.
- React batching and stale closures across events. Each event sees the state committed by the previous one. Within one event, the only handler that runs twice with an effect that compounds is the bubbled touch move, and that is modelled.
- The redraw effect's dependency check compares values, where React compares `facePosition` and `faceImage` by object identity. They disagree only when an update changes nothing visible, such as a zero-delta move or reloading the same asset. There the extra redraw would paint the same picture.
- Pointer coordinates are integers. Browsers may report fractional `clientX`/`clientY`, and floating-point rounding could make the telescoping sum inexact.
- The size slider delivers `parseInt` of a range input with min 50 and max 300. It is modelled as the subset type `OverlaySize`, on the grounds that the input element never reports values outside that range.
- `Gallery.Save`: the list is queued with `setGallery` before `localStorage.setItem` writes it. If that write throws, for example when the data-URL list exceeds the storage quota, memory holds one entry more than storage. The model assumes every write succeeds.
- `Gallery.SavesPersist`: assumes every storage write succeeds. After a failed write (see `Gallery.Save`), storage lags the in-memory list and a reload loses the unwritten entries.
- `MemeMaker.SavePrepends`: assumes the storage write succeeds (see `Gallery.Save`).
- `MemeMaker.SessionInvariant`: its reload round trip assumes every storage write succeeds (see `Gallery.Save`).
- `MemeMaker.StepInvariant`: its gallery-matches-storage clause assumes every storage write succeeds (see `Gallery.Save`).
- `LegacyMemeMaker.SavePrepends`: assumes the storage write succeeds (see `Gallery.Save`).
- `LegacyMemeMaker.SessionInvariant`: its reload round trip assumes every storage write succeeds (see `Gallery.Save`).
- `LegacyMemeMaker.StepInvariant`: its gallery-matches-storage clause assumes every storage write succeeds (see `Gallery.Save`).
- `MemeMaker.Draw`: the decode of the background is taken as immediate. In `App.js`, the download and save buttons call `drawCanvas` and then read the canvas with `toDataURL` straight away. The draw happens later, in `onload`, so the encoded image is the canvas as it was before that draw. With a background, no face and no earlier Render, that is a stale or blank canvas. The model stays sound only because the encoded string is a free parameter of `SaveClick`.
- The touch-start and touch-end handlers also run twice when the touch begins on the overlay. Both set the same values, so they are modelled once.

## Findings

| source | as written | input that shows it | evidently intended | confidence | as-written member | corrected member |
|---|---|---|---|---|---|---|
| src/App.js:131-156 | `onTouchMove={handleTouchMove}` is on both the overlay `<img>` and the container `<div>` that wraps it. A touch move that began on the overlay bubbles, so the handler runs twice in one event. Both runs read the same `dragStart`, and each queues `prev => prev + delta`, so the overlay moves by twice the delta | overlay at (50,50) of size 100 in a container at the viewport origin, touch starts on it at (60,60), finger moves to (70,60): overlay ends at (70,50), not (60,50) | one position update per finger movement, so the overlay keeps its offset from the finger | medium, not executed (relies on React running both bubbled handlers against one render's state and composing functional updates) | `Drag.TouchMoveBubbled` (used by `MemeMaker` for touches begun on the overlay, with `Drag.BubbledTelescoping` and `MemeMaker.OverlayTouchDragDoubles` proved) | `Drag.Move` (one update per finger movement, as for mouse moves and touches begun off the overlay, with `Drag.Telescoping` and `MemeMaker.DragTelescopes` proved) |
