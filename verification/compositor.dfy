/** The canvas compositor as a list of 2D-context commands, and a small semantics
    of those commands on an abstract canvas (no pixels: a canvas is its size and
    the stack of paints applied since it was last reset). */
module Compositor {
  import opened Wrappers
  import opened Geometry

  /** A decoded raster image: where it came from and its natural size. */
  datatype Image = Image(src: string, width: nat, height: nat)

  /** Where the fixed overlay image is loaded from. */
  const FaceAsset := "/newface.png"

  /** The context operations the compositor issues. */
  datatype Command =
    | SetSize(newWidth: nat, newHeight: nat)                // canvas.width/height := …
    | ClearRect(at: Point, width: int, height: int)
    | DrawImage(img: Image, at: Point)                      // natural size
    | DrawScaled(img: Image, at: Point, width: int, height: int)

  datatype Layer =
    | Paint(img: Image, at: Point, width: int, height: int)
    | Erase(at: Point, width: int, height: int)

  datatype Canvas = Canvas(width: nat, height: nat, layers: seq<Layer>)

  /** A canvas element before anything sets its size: 300 by 150, transparent. */
  const Blank := Canvas(300, 150, [])

  predicate Covers(c: Canvas, at: Point, width: int, height: int) {
    at.x <= 0 && at.y <= 0 && at.x + width >= c.width && at.y + height >= c.height
  }

  /** Setting a canvas dimension resets its bitmap; clearing a rectangle that covers
      the canvas leaves it empty; a draw paints over what is there. */
  function Apply(c: Canvas, cmd: Command): Canvas {
    match cmd
    case SetSize(w, h) => Canvas(w, h, [])
    case ClearRect(at, w, h) =>
      if Covers(c, at, w, h) then c.(layers := []) else c.(layers := c.layers + [Erase(at, w, h)])
    case DrawImage(img, at) => c.(layers := c.layers + [Paint(img, at, img.width, img.height)])
    case DrawScaled(img, at, w, h) => c.(layers := c.layers + [Paint(img, at, w, h)])
  }

  function Execute(c: Canvas, cmds: seq<Command>): Canvas
    decreases |cmds|
  {
    if cmds == [] then c else Execute(Apply(c, cmds[0]), cmds[1..])
  }

  /** The intended composite: a canvas of the background's natural size showing the
      background at the origin and, when the face is loaded, the face on top at
      `pos` scaled to `size` by `size`. */
  function Picture(bg: Image, face: Option<Image>, pos: Point, size: OverlaySize): Canvas {
    var base := [Paint(bg, Point(0, 0), bg.width, bg.height)];
    Canvas(bg.width, bg.height,
           if face.Some? then base + [Paint(face.value, pos, size, size)] else base)
  }

  /** Size the canvas to the background, clear it, and draw the background at the origin. */
  function BackgroundCommands(b: Image): seq<Command> {
    [SetSize(b.width, b.height), ClearRect(Point(0, 0), b.width, b.height), DrawImage(b, Point(0, 0))]
  }

  /** Draw the face, when there is one, at `pos` scaled to `size` by `size`. */
  function FaceCommands(face: Option<Image>, pos: Point, size: OverlaySize): seq<Command> {
    if face.Some? then [DrawScaled(face.value, pos, size, size)] else []
  }

  /** drawCanvas: nothing without an uploaded background; otherwise the background
      commands, then the face's. Whatever the canvas held before, the commands leave
      exactly the Picture. */
  function Composite(bg: Option<Image>, face: Option<Image>, pos: Point, size: OverlaySize): (r: seq<Command>)
    ensures bg.None? ==> r == []
    ensures bg.Some? ==> forall c :: Execute(c, r) == Picture(bg.value, face, pos, size)
    ensures bg.Some? ==> |r| >= 3 && r[0] == SetSize(bg.value.width, bg.value.height)
  {
    match bg
    case None => []
    case Some(b) =>
      var r := BackgroundCommands(b) + FaceCommands(face, pos, size);
      assert forall c :: Execute(c, r) == Picture(b, face, pos, size) by {
        forall c ensures Execute(c, r) == Picture(b, face, pos, size) {
          ExecuteComposite(c, b, face, pos, size);
        }
      }
      r
  }

  lemma ExecuteComposite(c: Canvas, b: Image, face: Option<Image>, pos: Point, size: OverlaySize)
    ensures Execute(c, BackgroundCommands(b) + FaceCommands(face, pos, size)) == Picture(b, face, pos, size)
  {
    var c1 := Apply(c, SetSize(b.width, b.height));
    var c2 := Apply(c1, ClearRect(Point(0, 0), b.width, b.height));
    var c3 := Apply(c2, DrawImage(b, Point(0, 0)));
    assert c3 == Canvas(b.width, b.height, [Paint(b, Point(0, 0), b.width, b.height)]);
    var tail := FaceCommands(face, pos, size);
    assert Execute(c3, tail) == Picture(b, face, pos, size) by {
      if face.Some? {
        assert tail[1..] == [];
      }
    }
    var s2 := [DrawImage(b, Point(0, 0))] + tail;
    assert s2[1..] == tail;
    var s1 := [ClearRect(Point(0, 0), b.width, b.height)] + s2;
    assert s1[1..] == s2;
    var s0 := [SetSize(b.width, b.height)] + s1;
    assert s0[1..] == s1;
    assert Execute(c2, s2) == Execute(c3, tail);
    assert Execute(c1, s1) == Execute(c2, s2);
    assert Execute(c, s0) == Execute(c1, s1);
    assert s0 == BackgroundCommands(b) + tail;
  }

  /** Uploading a W by H background yields a W by H canvas showing the background at the
      origin at its natural size and, on top, the face drawn at exactly `size` by `size`
      (so 50 by 50 and 300 by 300 at the slider's ends); without a face, the background alone. */
  lemma CanvasMatchesBackground(c: Canvas, b: Image, face: Option<Image>, pos: Point, size: OverlaySize)
    ensures Execute(c, Composite(Some(b), face, pos, size)).width == b.width
    ensures Execute(c, Composite(Some(b), face, pos, size)).height == b.height
    ensures face.None? ==> Execute(c, Composite(Some(b), face, pos, size)).layers
                           == [Paint(b, Point(0, 0), b.width, b.height)]
    ensures face.Some? ==> Execute(c, Composite(Some(b), face, pos, size)).layers
                           == [Paint(b, Point(0, 0), b.width, b.height), Paint(face.value, pos, size, size)]
  {
  }

  /** Without an upload the compositor leaves the canvas untouched. */
  lemma NoUploadNoDraw(c: Canvas, face: Option<Image>, pos: Point, size: OverlaySize)
    ensures Execute(c, Composite(None, face, pos, size)) == c
  {
  }
}
