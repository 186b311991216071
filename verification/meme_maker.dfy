/** The MemeMaker component of src/App.js (the one the page mounts) as a record of
    state and one pure transition per user event. Each asynchronous decode is one
    atomic event carrying the decoded image; after every handler the redraw effect
    runs on the committed state. */
module MemeMaker {
  import opened Wrappers
  import opened Geometry
  import Drag
  import Gallery
  import opened Compositor

  datatype Editor = Editor(
    uploaded: Option<Image>,   // uploadedImage, as decoded
    face: Option<Image>,       // faceImage
    faceLoaded: bool,          // faceLoaded
    size: OverlaySize,         // faceSize
    drag: Drag.Tracker,        // facePosition, isDragging, dragStart
    touchOnOverlay: bool,      // whether the current touch began on the overlay image
    gallery: Gallery.Shelf,    // gallery and its stored copy
    canvas: Canvas)            // what the canvas element shows

  datatype Event =
    | Upload(img: Image)                     // a chosen file, read and decoded
    | FaceDecoded(width: nat, height: nat)   // "Add New Face", then the asset's onload
    | MouseDown(p: Point)                    // on the overlay image
    | MouseMove(p: Point)
    | MouseUp
    | MouseLeave
    | TouchStart(p: Point, onOverlay: bool)  // on the overlay image, or elsewhere in the container
    | TouchMove(p: Point)
    | TouchEnd
    | Slide(value: OverlaySize)
    | RenderClick
    | DownloadClick
    | TweetClick
    | SaveClick(encoded: Gallery.Entry)      // the canvas as toDataURL encodes it

  /** Mount: the initial state values, then the gallery-load effect. */
  function Startup(stored: Gallery.Storage): (r: Editor)
    ensures r.drag.pos == Point(50, 50) && r.drag.anchor == Point(0, 0) && !r.drag.dragging
    ensures r.size == 100
    ensures r.uploaded.None? && r.face.None? && !r.faceLoaded && !r.touchOnOverlay
    ensures r.gallery.entries == Gallery.Restore(stored) && r.gallery.stored == stored
    ensures stored.None? ==> r.gallery.entries == []
  {
    Editor(None, None, false, 100, Drag.Start, false, Gallery.Startup(stored), Blank)
  }

  /** The overlay image element exists only while both images are present; it is the
      only target of mouse-down. */
  predicate OverlayVisible(s: Editor) {
    s.uploaded.Some? && s.face.Some?
  }

  /** The commands drawCanvas issues for the current state. */
  function Commands(s: Editor): seq<Command> {
    Composite(s.uploaded, s.face, s.drag.pos, s.size)
  }

  /** drawCanvas, with its image decode taken as immediate: without a background
      nothing happens; otherwise the canvas ends up showing the composite of the
      current state, whatever it showed before. Only the canvas changes. */
  function Draw(s: Editor): (r: Editor)
    ensures s.uploaded.None? ==> r == s
    ensures s.uploaded.Some? ==> r.canvas == Shown(s)
    ensures r.(canvas := s.canvas) == s
  {
    s.(canvas := Execute(s.canvas, Commands(s)))
  }

  /** What the canvas should show once a background is uploaded. */
  function Shown(s: Editor): Canvas
    requires s.uploaded.Some?
  {
    Picture(s.uploaded.value, s.face, s.drag.pos, s.size)
  }

  /** loadFaceImage followed by the asset's onload: nothing once a face is set;
      otherwise the face and the loaded flag are set together. */
  function LoadFace(s: Editor, width: nat, height: nat): (r: Editor)
    ensures s.face.Some? ==> r == s
    ensures s.face.None? ==> r.face == Some(Image(FaceAsset, width, height)) && r.faceLoaded
    ensures r.(face := s.face, faceLoaded := s.faceLoaded) == s
  {
    if s.face.Some? then s
    else s.(face := Some(Image(FaceAsset, width, height)), faceLoaded := true)
  }

  /** The event handlers, before the redraw effect runs. Each field has its own
      handlers: only an upload changes the background, only a face load the face,
      only the slider the size, only a save the gallery; the overlay moves only on a
      move during a drag; and the only repaint a handler makes is the composite. */
  function Handle(s: Editor, e: Event): (r: Editor)
    ensures r.uploaded == (if e.Upload? then Some(e.img) else s.uploaded)
    ensures !e.FaceDecoded? ==> r.face == s.face && r.faceLoaded == s.faceLoaded
    ensures r.size == (if e.Slide? then e.value else s.size)
    ensures r.gallery == (if e.SaveClick? then Gallery.Save(s.gallery, e.encoded) else s.gallery)
    ensures r.drag.pos != s.drag.pos ==> s.drag.dragging && (e.MouseMove? || e.TouchMove?)
    ensures r.canvas != s.canvas ==> s.uploaded.Some? && r.canvas == Shown(s)
  {
    match e
    case Upload(img) => s.(uploaded := Some(img))
    case FaceDecoded(w, h) => LoadFace(s, w, h)
    case MouseDown(p) => if OverlayVisible(s) then s.(drag := Drag.Down(s.drag, p)) else s
    case MouseMove(p) => s.(drag := Drag.Move(s.drag, p))
    case MouseUp => s.(drag := Drag.Release(s.drag))
    case MouseLeave => s.(drag := Drag.Release(s.drag))
    case TouchStart(p, onOverlay) =>
      s.(drag := Drag.Down(s.drag, p), touchOnOverlay := onOverlay && OverlayVisible(s))
    case TouchMove(p) =>
      // a touch begun on the overlay reaches the overlay's handler and, bubbling,
      // the container's: both run on the same state
      if s.touchOnOverlay then s.(drag := Drag.TouchMoveBubbled(s.drag, p))
      else s.(drag := Drag.Move(s.drag, p))
    case TouchEnd => s.(drag := Drag.Release(s.drag))
    case Slide(v) => s.(size := v)
    case RenderClick => Draw(s)
    case DownloadClick => Draw(s)
    case TweetClick => Draw(s)
    case SaveClick(encoded) =>
      var d := Draw(s);
      d.(gallery := Gallery.Save(d.gallery, encoded))
  }

  /** The values the redraw effect depends on. */
  function Deps(s: Editor): (Option<Image>, Option<Image>, Point, OverlaySize, bool) {
    (s.uploaded, s.face, s.drag.pos, s.size, s.faceLoaded)
  }

  /** The redraw effect: when a dependency changed and both a background and a loaded
      face are present, the canvas is recomposited; otherwise nothing happens. Only
      the canvas is ever touched. */
  function Redraw(before: Editor, after: Editor): (r: Editor)
    ensures r.(canvas := after.canvas) == after
    ensures Deps(before) != Deps(after) && after.uploaded.Some? && after.faceLoaded ==> r.canvas == Shown(after)
    ensures !(Deps(before) != Deps(after) && after.uploaded.Some? && after.faceLoaded) ==> r == after
  {
    if Deps(before) != Deps(after) && after.uploaded.Some? && after.faceLoaded then Draw(after) else after
  }

  function Step(s: Editor, e: Event): Editor {
    Redraw(s, Handle(s, e))
  }

  function Run(s: Editor, es: seq<Event>): Editor
    decreases |es|
  {
    if es == [] then s else Run(Step(s, es[0]), es[1..])
  }

  /** What every reachable state satisfies: the two face flags move together, the face
      is the fixed asset, the gallery matches storage, and once both images are in
      place the canvas shows the current composite. */
  ghost predicate Invariant(s: Editor) {
    && (s.faceLoaded <==> s.face.Some?)
    && (s.face.Some? ==> s.face.value.src == FaceAsset)
    && Gallery.InSync(s.gallery)
    && (s.uploaded.Some? && s.faceLoaded ==> s.canvas == Shown(s))
  }

  lemma StartupInvariant(stored: Gallery.Storage)
    ensures Invariant(Startup(stored))
  {
  }

  lemma StepInvariant(s: Editor, e: Event)
    requires Invariant(s)
    ensures Invariant(Step(s, e))
  {
  }

  lemma {:induction false} RunInvariant(s: Editor, es: seq<Event>)
    requires Invariant(s)
    ensures Invariant(Run(s, es))
    decreases |es|
  {
    if es != [] {
      StepInvariant(s, es[0]);
      RunInvariant(Step(s, es[0]), es[1..]);
    }
  }

  /** In every session: the face flag is set exactly when a face is present, the
      canvas is in step with the state once both images are loaded, and reloading
      the page restores the gallery exactly. */
  lemma SessionInvariant(stored: Gallery.Storage, es: seq<Event>)
    ensures var s := Run(Startup(stored), es);
      && (s.faceLoaded <==> s.face.Some?)
      && (s.uploaded.Some? && s.faceLoaded ==> s.canvas == Shown(s))
      && Startup(s.gallery.stored).gallery.entries == s.gallery.entries
  {
    StartupInvariant(stored);
    RunInvariant(Startup(stored), es);
  }

  /** Loading the face is idempotent: once a face is set no event replaces it. */
  lemma {:induction false} FaceLoadedOnce(s: Editor, es: seq<Event>)
    requires s.face.Some?
    ensures Run(s, es).face == s.face
    decreases |es|
  {
    if es != [] {
      FaceLoadedOnce(Step(s, es[0]), es[1..]);
    }
  }

  /** Pointer-down (mouse on the overlay, or touch anywhere in the container) anchors
      a drag at the pointer and moves nothing; a touch-start also records whether the
      touch began on the overlay. */
  lemma DownAnchors(s: Editor, p: Point, onOverlay: bool)
    ensures OverlayVisible(s) ==> Step(s, MouseDown(p)) == s.(drag := Drag.Tracker(s.drag.pos, true, p))
    ensures !OverlayVisible(s) ==> Step(s, MouseDown(p)) == s
    ensures Step(s, TouchStart(p, onOverlay))
            == s.(drag := Drag.Tracker(s.drag.pos, true, p), touchOnOverlay := onOverlay && OverlayVisible(s))
  {
  }

  /** Mouse-up, mouse-leave and touch-end end the drag and change nothing else. */
  lemma ReleaseEndsDrag(s: Editor, e: Event)
    requires e.MouseUp? || e.MouseLeave? || e.TouchEnd?
    ensures Step(s, e) == s.(drag := s.drag.(dragging := false))
  {
  }

  /** A move outside a drag changes nothing. */
  lemma IdleMoveIgnored(s: Editor, p: Point)
    requires !s.drag.dragging
    ensures Step(s, MouseMove(p)) == s
    ensures Step(s, TouchMove(p)) == s
  {
  }

  /** A move during a drag shifts the overlay by the delta from the previous point
      and re-anchors there; a touch begun on the overlay shifts it by that delta twice. */
  lemma DragMoveShifts(s: Editor, p: Point, touch: bool)
    requires s.drag.dragging
    ensures var r := Step(s, if touch then TouchMove(p) else MouseMove(p));
      var d := Sub(p, s.drag.anchor);
      && (!(touch && s.touchOnOverlay) ==> r.drag.pos == Add(s.drag.pos, d))
      && (touch && s.touchOnOverlay ==> r.drag.pos == Add(Add(s.drag.pos, d), d))
      && r.drag.anchor == p && r.drag.dragging
  {
  }

  /** A run of mouse or touch moves. */
  function MoveEvents(ps: seq<Point>, touch: bool): (es: seq<Event>)
    ensures |es| == |ps|
    ensures forall i :: 0 <= i < |ps| ==> es[i] == (if touch then TouchMove(ps[i]) else MouseMove(ps[i]))
    decreases |ps|
  {
    if ps == [] then []
    else [if touch then TouchMove(ps[0]) else MouseMove(ps[0])] + MoveEvents(ps[1..], touch)
  }

  /** Over a run of moves the editor's drag state follows the drag controller: the
      single-move controller for mouse moves and touches begun off the overlay, the
      bubbled one for touches begun on it. */
  lemma {:induction false} MovesFollowController(s: Editor, ps: seq<Point>, touch: bool)
    ensures Run(s, MoveEvents(ps, touch)).touchOnOverlay == s.touchOnOverlay
    ensures Run(s, MoveEvents(ps, touch)).drag
            == if touch && s.touchOnOverlay then Drag.BubbledMoves(s.drag, ps) else Drag.Moves(s.drag, ps)
    decreases |ps|
  {
    if ps != [] {
      var es := MoveEvents(ps, touch);
      assert es[1..] == MoveEvents(ps[1..], touch);
      MovesFollowController(Step(s, es[0]), ps[1..], touch);
    }
  }

  /** Telescoping drag: a mouse-down on the overlay, or a touch begun elsewhere in the
      container, at `p0` followed by moves through `ps` shifts the overlay by the last
      point minus `p0`, independent of the number of moves. */
  lemma DragTelescopes(s: Editor, p0: Point, ps: seq<Point>, touch: bool)
    requires touch || OverlayVisible(s)
    ensures Run(s, [if touch then TouchStart(p0, false) else MouseDown(p0)] + MoveEvents(ps, touch)).drag.pos
            == Add(s.drag.pos, Sub(Drag.LastPoint(p0, ps), p0))
  {
    var down := if touch then TouchStart(p0, false) else MouseDown(p0);
    var es := [down] + MoveEvents(ps, touch);
    assert es[1..] == MoveEvents(ps, touch);
    var s1 := Step(s, down);
    assert s1.drag == Drag.Down(s.drag, p0) && (touch ==> !s1.touchOnOverlay);
    MovesFollowController(s1, ps, touch);
    Drag.Telescoping(s.drag, p0, ps);
  }

  /** A touch drag begun on the overlay at `p0` and moved through `ps` shifts the overlay
      by twice the last point minus `p0`. */
  lemma OverlayTouchDragDoubles(s: Editor, p0: Point, ps: seq<Point>)
    requires OverlayVisible(s)
    ensures var d := Sub(Drag.LastPoint(p0, ps), p0);
      Run(s, [TouchStart(p0, true)] + MoveEvents(ps, true)).drag.pos == Add(s.drag.pos, Add(d, d))
  {
    var es := [TouchStart(p0, true)] + MoveEvents(ps, true);
    assert es[1..] == MoveEvents(ps, true);
    var s1 := Step(s, TouchStart(p0, true));
    assert s1.drag == Drag.Down(s.drag, p0) && s1.touchOnOverlay;
    MovesFollowController(s1, ps, true);
    Drag.BubbledTelescoping(s.drag, p0, ps);
  }

  /** Save prepends the encoded canvas and writes the whole new list to storage; a
      later page load restores that list. */
  lemma SavePrepends(s: Editor, encoded: Gallery.Entry)
    ensures var r := Step(s, SaveClick(encoded));
      && r.gallery.entries == [encoded] + s.gallery.entries
      && r.gallery.stored == Some(r.gallery.entries)
      && Startup(r.gallery.stored).gallery.entries == r.gallery.entries
  {
  }

  /** Without an uploaded background the render, download, tweet and save buttons
      leave the canvas as it is. */
  lemma NoUploadNoComposite(s: Editor, e: Event)
    requires s.uploaded.None?
    requires e.RenderClick? || e.DownloadClick? || e.TweetClick? || e.SaveClick?
    ensures Step(s, e).canvas == s.canvas
  {
  }

  /** The automatic redraw needs both a background and a loaded face: uploading a
      background alone leaves the canvas untouched. */
  lemma UploadWithoutFaceKeepsCanvas(s: Editor, img: Image)
    requires !s.faceLoaded
    ensures Step(s, Upload(img)).canvas == s.canvas
    ensures Step(s, Upload(img)).uploaded == Some(img)
  {
  }
}
