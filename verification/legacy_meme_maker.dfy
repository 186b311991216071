/** The older MemeMaker variant of src/app.js: mouse events only, an unguarded face
    loader, no loaded flag, a redraw effect that needs only the background, and
    export buttons that do not redraw first. */
module LegacyMemeMaker {
  import opened Wrappers
  import opened Geometry
  import Drag
  import Gallery
  import opened Compositor

  datatype Editor = Editor(
    uploaded: Option<Image>,   // uploadedImage, as decoded
    face: Option<Image>,       // faceImage
    size: OverlaySize,         // faceSize
    drag: Drag.Tracker,        // facePosition, isDragging, dragStart
    gallery: Gallery.Shelf,    // gallery and its stored copy
    canvas: Canvas)            // what the canvas element shows

  datatype Event =
    | Upload(img: Image)                     // a chosen file, read and decoded
    | FaceDecoded(width: nat, height: nat)   // "Add New Face", then the asset's onload
    | MouseDown(p: Point)                    // on the overlay image
    | MouseMove(p: Point)
    | MouseUp
    | MouseLeave
    | Slide(value: OverlaySize)
    | RenderClick
    | DownloadClick
    | TweetClick
    | SaveClick(encoded: Gallery.Entry)      // the canvas as toDataURL encodes it

  /** Mount: the initial state values, then the gallery-load effect. */
  function Startup(stored: Gallery.Storage): (r: Editor)
    ensures r.drag.pos == Point(50, 50) && r.drag.anchor == Point(0, 0) && !r.drag.dragging
    ensures r.size == 100
    ensures r.uploaded.None? && r.face.None?
    ensures r.gallery.entries == Gallery.Restore(stored) && r.gallery.stored == stored
    ensures stored.None? ==> r.gallery.entries == []
  {
    Editor(None, None, 100, Drag.Start, Gallery.Startup(stored), Blank)
  }

  predicate OverlayVisible(s: Editor) {
    s.uploaded.Some? && s.face.Some?
  }

  /** drawCanvas. It has no upload guard: with no upload the source becomes the
      relative URL `null`, whose fetch does not decode as an image, so its onload (and
      every draw) never runs. With a background the canvas
      ends up showing the composite, whatever it showed before. Only the canvas changes. */
  function Draw(s: Editor): (r: Editor)
    ensures s.uploaded.None? ==> r == s
    ensures s.uploaded.Some? ==> r.canvas == Shown(s)
    ensures r.(canvas := s.canvas) == s
  {
    s.(canvas := Execute(s.canvas, Composite(s.uploaded, s.face, s.drag.pos, s.size)))
  }

  function Shown(s: Editor): Canvas
    requires s.uploaded.Some?
  {
    Picture(s.uploaded.value, s.face, s.drag.pos, s.size)
  }

  /** loadFaceImage followed by the asset's onload, with no guard: every completed
      load installs the face, whatever was there. */
  function LoadFace(s: Editor, width: nat, height: nat): (r: Editor)
    ensures r.face == Some(Image(FaceAsset, width, height))
    ensures r.(face := s.face) == s
  {
    s.(face := Some(Image(FaceAsset, width, height)))
  }

  /** The event handlers, before the redraw effect runs. Only an upload changes the
      background, only a face load the face (always replacing it), only the slider the
      size, only a save the gallery; the overlay moves only on a mouse move during a
      drag; only "Render" repaints, and then with the composite. */
  function Handle(s: Editor, e: Event): (r: Editor)
    ensures r.uploaded == (if e.Upload? then Some(e.img) else s.uploaded)
    ensures r.face == (if e.FaceDecoded? then Some(Image(FaceAsset, e.width, e.height)) else s.face)
    ensures r.size == (if e.Slide? then e.value else s.size)
    ensures r.gallery == (if e.SaveClick? then Gallery.Save(s.gallery, e.encoded) else s.gallery)
    ensures r.drag.pos != s.drag.pos ==> s.drag.dragging && e.MouseMove?
    ensures r.canvas != s.canvas ==> e.RenderClick? && s.uploaded.Some? && r.canvas == Shown(s)
  {
    match e
    case Upload(img) => s.(uploaded := Some(img))
    case FaceDecoded(w, h) => LoadFace(s, w, h)
    case MouseDown(p) => if OverlayVisible(s) then s.(drag := Drag.Down(s.drag, p)) else s
    case MouseMove(p) => s.(drag := Drag.Move(s.drag, p))
    case MouseUp => s.(drag := Drag.Release(s.drag))
    case MouseLeave => s.(drag := Drag.Release(s.drag))
    case Slide(v) => s.(size := v)
    case RenderClick => Draw(s)
    case DownloadClick => s
    case TweetClick => s
    case SaveClick(encoded) => s.(gallery := Gallery.Save(s.gallery, encoded))
  }

  function Deps(s: Editor): (Option<Image>, Option<Image>, Point, OverlaySize) {
    (s.uploaded, s.face, s.drag.pos, s.size)
  }

  /** The redraw effect: whenever a dependency changed and a background is present the
      canvas is recomposited, with or without a face. Only the canvas is touched. */
  function Redraw(before: Editor, after: Editor): (r: Editor)
    ensures r.(canvas := after.canvas) == after
    ensures Deps(before) != Deps(after) && after.uploaded.Some? ==> r.canvas == Shown(after)
    ensures !(Deps(before) != Deps(after) && after.uploaded.Some?) ==> r == after
  {
    if Deps(before) != Deps(after) && after.uploaded.Some? then Draw(after) else after
  }

  function Step(s: Editor, e: Event): Editor {
    Redraw(s, Handle(s, e))
  }

  function Run(s: Editor, es: seq<Event>): Editor
    decreases |es|
  {
    if es == [] then s else Run(Step(s, es[0]), es[1..])
  }

  /** Every reachable state: the face is the fixed asset, the gallery matches storage,
      and once a background is uploaded the canvas shows the current composite. */
  ghost predicate Invariant(s: Editor) {
    && (s.face.Some? ==> s.face.value.src == FaceAsset)
    && Gallery.InSync(s.gallery)
    && (s.uploaded.Some? ==> s.canvas == Shown(s))
  }

  lemma StartupInvariant(stored: Gallery.Storage)
    ensures Invariant(Startup(stored))
  {
  }

  lemma StepInvariant(s: Editor, e: Event)
    requires Invariant(s)
    ensures Invariant(Step(s, e))
  {
  }

  lemma {:induction false} RunInvariant(s: Editor, es: seq<Event>)
    requires Invariant(s)
    ensures Invariant(Run(s, es))
    decreases |es|
  {
    if es != [] {
      StepInvariant(s, es[0]);
      RunInvariant(Step(s, es[0]), es[1..]);
    }
  }

  /** In every session the canvas is in step with the state once a background is
      uploaded, and reloading the page restores the gallery exactly. */
  lemma SessionInvariant(stored: Gallery.Storage, es: seq<Event>)
    ensures var s := Run(Startup(stored), es);
      && (s.uploaded.Some? ==> s.canvas == Shown(s))
      && Startup(s.gallery.stored).gallery.entries == s.gallery.entries
  {
    StartupInvariant(stored);
    RunInvariant(Startup(stored), es);
  }

  /** Every completed face load replaces the face, even when one was already set. */
  lemma FaceReplaced(s: Editor, width: nat, height: nat)
    ensures Step(s, FaceDecoded(width, height)).face == Some(Image(FaceAsset, width, height))
  {
  }

  /** With a background but no face, the automatic redraw still runs and draws the
      background alone. */
  lemma RedrawWithoutFace(s: Editor, v: OverlaySize)
    requires s.uploaded.Some? && s.face.None? && v != s.size
    ensures Step(s, Slide(v)).canvas == Canvas(s.uploaded.value.width, s.uploaded.value.height,
                                               [Paint(s.uploaded.value, Point(0, 0), s.uploaded.value.width, s.uploaded.value.height)])
  {
  }

  /** Mouse-down on the overlay anchors a drag at the pointer and moves nothing. */
  lemma DownAnchors(s: Editor, p: Point)
    ensures OverlayVisible(s) ==> Step(s, MouseDown(p)) == s.(drag := Drag.Tracker(s.drag.pos, true, p))
    ensures !OverlayVisible(s) ==> Step(s, MouseDown(p)) == s
  {
  }

  /** Mouse-up and mouse-leave end the drag and change nothing else. */
  lemma ReleaseEndsDrag(s: Editor, e: Event)
    requires e.MouseUp? || e.MouseLeave?
    ensures Step(s, e) == s.(drag := s.drag.(dragging := false))
  {
  }

  /** A move outside a drag changes nothing; inside one it shifts the overlay by the
      delta from the previous point and re-anchors there. */
  lemma MoveShifts(s: Editor, p: Point)
    ensures !s.drag.dragging ==> Step(s, MouseMove(p)) == s
    ensures s.drag.dragging ==> Step(s, MouseMove(p)).drag == Drag.Tracker(Add(s.drag.pos, Sub(p, s.drag.anchor)), true, p)
  {
  }

  function MoveEvents(ps: seq<Point>): (es: seq<Event>)
    ensures |es| == |ps|
    ensures forall i :: 0 <= i < |ps| ==> es[i] == MouseMove(ps[i])
    decreases |ps|
  {
    if ps == [] then [] else [MouseMove(ps[0])] + MoveEvents(ps[1..])
  }

  lemma {:induction false} MovesFollowController(s: Editor, ps: seq<Point>)
    ensures Run(s, MoveEvents(ps)).drag == Drag.Moves(s.drag, ps)
    decreases |ps|
  {
    if ps != [] {
      assert MoveEvents(ps)[1..] == MoveEvents(ps[1..]);
      MovesFollowController(Step(s, MouseMove(ps[0])), ps[1..]);
    }
  }

  /** Telescoping drag: a mouse-down on the overlay at `p0` and moves through `ps`
      shift the overlay by the last point minus `p0`, however many moves there were. */
  lemma DragTelescopes(s: Editor, p0: Point, ps: seq<Point>)
    requires OverlayVisible(s)
    ensures Run(s, [MouseDown(p0)] + MoveEvents(ps)).drag.pos == Add(s.drag.pos, Sub(Drag.LastPoint(p0, ps), p0))
  {
    var es := [MouseDown(p0)] + MoveEvents(ps);
    assert es[1..] == MoveEvents(ps);
    MovesFollowController(Step(s, MouseDown(p0)), ps);
    Drag.Telescoping(s.drag, p0, ps);
  }

  /** Save prepends the encoded canvas, without redrawing it first, and writes the
      whole new list to storage; a later page load restores that list. */
  lemma SavePrepends(s: Editor, encoded: Gallery.Entry)
    ensures var r := Step(s, SaveClick(encoded));
      && r.gallery.entries == [encoded] + s.gallery.entries
      && r.gallery.stored == Some(r.gallery.entries)
      && r.canvas == s.canvas
      && Startup(r.gallery.stored).gallery.entries == r.gallery.entries
  {
  }
}
