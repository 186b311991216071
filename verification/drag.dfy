/** The drag controller shared by both variants of the editor: the overlay
    position together with the `isDragging` flag and the `dragStart` anchor.
    Each move adds the delta from the previous pointer point, then re-anchors. */
module Drag {
  import opened Geometry

  datatype Tracker = Tracker(pos: Point, dragging: bool, anchor: Point)

  /** Position (50,50), not dragging, anchor (0,0). */
  const Start := Tracker(Point(50, 50), false, Point(0, 0))

  /** How far the overlay sits from the last pointer point. */
  function Offset(t: Tracker): Point {
    Sub(t.pos, t.anchor)
  }

  /** Pointer or touch down: start a drag anchored at `p`. */
  function Down(t: Tracker, p: Point): (r: Tracker)
    ensures r.dragging && r.anchor == p
    ensures r.pos == t.pos
    ensures Offset(r) == Sub(t.pos, p)
  {
    Tracker(t.pos, true, p)
  }

  /** Pointer or touch move: outside a drag nothing happens; inside one the overlay
      follows the pointer by the delta since the previous point, so the offset
      between overlay and pointer is kept. */
  function Move(t: Tracker, p: Point): (r: Tracker)
    ensures !t.dragging ==> r == t
    ensures t.dragging ==> r.dragging && r.anchor == p && Offset(r) == Offset(t)
    ensures t.dragging ==> r.pos == Add(t.pos, Sub(p, t.anchor))
  {
    if !t.dragging then t
    else Tracker(Add(t.pos, Sub(p, t.anchor)), true, p)
  }

  /** Pointer up, pointer leave or touch end: the drag ends, nothing else changes. */
  function Release(t: Tracker): (r: Tracker)
    ensures !r.dragging
    ensures r.pos == t.pos && r.anchor == t.anchor
  {
    t.(dragging := false)
  }

  /** A run of move events. */
  function Moves(t: Tracker, ps: seq<Point>): Tracker
    decreases |ps|
  {
    if ps == [] then t else Moves(Move(t, ps[0]), ps[1..])
  }

  /** The last point of a gesture that starts at `p0` and continues through `ps`. */
  function LastPoint(p0: Point, ps: seq<Point>): Point {
    if ps == [] then p0 else ps[|ps| - 1]
  }

  /** During a drag, any run of moves keeps the overlay/pointer offset and
      leaves the anchor on the last point. */
  lemma {:induction false} MovesKeepOffset(t: Tracker, ps: seq<Point>)
    requires t.dragging
    ensures Moves(t, ps).dragging
    ensures Offset(Moves(t, ps)) == Offset(t)
    ensures Moves(t, ps).anchor == LastPoint(t.anchor, ps)
    decreases |ps|
  {
    if ps != [] {
      MovesKeepOffset(Move(t, ps[0]), ps[1..]);
      assert ps[1..] == [] || ps[1..][|ps[1..]| - 1] == ps[|ps| - 1];
    }
  }

  /** Telescoping: after a down at `p0` and moves through `ps`, the overlay has moved
      by the last point minus `p0`, however many intermediate moves there were. */
  lemma Telescoping(t: Tracker, p0: Point, ps: seq<Point>)
    ensures Moves(Down(t, p0), ps).pos == Add(t.pos, Sub(LastPoint(p0, ps), p0))
  {
    MovesKeepOffset(Down(t, p0), ps);
  }

  /** The pointer events the controller reacts to. */
  datatype Gesture = PointerDown(p: Point) | PointerMove(p: Point) | PointerUp

  function Apply(t: Tracker, g: Gesture): Tracker {
    match g
    case PointerDown(p) => Down(t, p)
    case PointerMove(p) => Move(t, p)
    case PointerUp => Release(t)
  }

  function Run(t: Tracker, gs: seq<Gesture>): Tracker
    decreases |gs|
  {
    if gs == [] then t else Run(Apply(t, gs[0]), gs[1..])
  }

  /** Reference design: remember the overlay's offset from the grab point and place
      the overlay at pointer + offset on every move (an absolute update). */
  datatype Grab = Grab(pos: Point, dragging: bool, offset: Point)

  function GrabApply(a: Grab, g: Gesture): Grab {
    match g
    case PointerDown(p) => Grab(a.pos, true, Sub(a.pos, p))
    case PointerMove(p) => if a.dragging then a.(pos := Add(p, a.offset)) else a
    case PointerUp => a.(dragging := false)
  }

  function GrabRun(a: Grab, gs: seq<Gesture>): Grab
    decreases |gs|
  {
    if gs == [] then a else GrabRun(GrabApply(a, gs[0]), gs[1..])
  }

  ghost predicate Agree(t: Tracker, a: Grab) {
    t.pos == a.pos && t.dragging == a.dragging && (t.dragging ==> Offset(t) == a.offset)
  }

  /** One pointer event keeps the two designs in agreement. */
  lemma ApplyAgrees(t: Tracker, a: Grab, g: Gesture)
    requires Agree(t, a)
    ensures Agree(Apply(t, g), GrabApply(a, g))
  {
    if g.PointerMove? && t.dragging {
      assert Apply(t, g).pos == Add(g.p, Offset(t));
    }
  }

  /** The incremental controller and the absolute-offset design place the overlay
      identically after every sequence of pointer events. */
  lemma {:induction false} IncrementalMatchesAbsolute(t: Tracker, a: Grab, gs: seq<Gesture>)
    requires Agree(t, a)
    ensures Agree(Run(t, gs), GrabRun(a, gs))
    ensures Run(t, gs).pos == GrabRun(a, gs).pos
    decreases |gs|
  {
    if gs != [] {
      ApplyAgrees(t, a, gs[0]);
      IncrementalMatchesAbsolute(Apply(t, gs[0]), GrabApply(a, gs[0]), gs[1..]);
    }
  }

  /** Starting from the initial state, the two designs agree on every event sequence. */
  lemma StartMatchesAbsolute(gs: seq<Gesture>)
    ensures Run(Start, gs).pos == GrabRun(Grab(Start.pos, false, Point(0, 0)), gs).pos
  {
    IncrementalMatchesAbsolute(Start, Grab(Start.pos, false, Point(0, 0)), gs);
  }

  /** A touch move that starts on the overlay is handled twice in one event: once by
      the overlay image and once by the container it bubbles to. Both handler runs
      read the same state; the position update is queued as a function of the
      previous position, so it is applied twice, while the anchor is simply set. */
  function TouchMoveBubbled(t: Tracker, p: Point): (r: Tracker)
    ensures !t.dragging ==> r == t
    ensures t.dragging ==> r.dragging && r.anchor == p
    ensures t.dragging ==> r.pos == Add(Move(t, p).pos, Sub(p, t.anchor))
  {
    if !t.dragging then t
    else
      var d := Sub(p, t.anchor);
      Tracker(Add(Add(t.pos, d), d), true, p)
  }

  /** The bubbled handling moves the overlay twice as far as the finger: whenever the
      finger moves at all, it lands somewhere other than a single move would put it. */
  lemma BubbledTouchMoveOvershoots(t: Tracker, p: Point)
    requires t.dragging && p != t.anchor
    ensures TouchMoveBubbled(t, p).pos != Move(t, p).pos
    ensures Offset(TouchMoveBubbled(t, p)) != Offset(t)
  {
  }

  /** Concrete instance: grab the fresh 100-pixel overlay at (60,60), inside it when the
      container sits at the viewport origin, and drag to (70,60); the overlay ends at
      (70,50) instead of (60,50). */
  lemma BubbledTouchMoveExample()
    ensures Move(Down(Start, Point(60, 60)), Point(70, 60)).pos == Point(60, 50)
    ensures TouchMoveBubbled(Down(Start, Point(60, 60)), Point(70, 60)).pos == Point(70, 50)
  {
  }

  /** A run of touch moves handled the bubbled way. */
  function BubbledMoves(t: Tracker, ps: seq<Point>): Tracker
    decreases |ps|
  {
    if ps == [] then t else BubbledMoves(TouchMoveBubbled(t, ps[0]), ps[1..])
  }

  /** What the bubbled handling keeps fixed: the position minus twice the anchor. */
  function DoubleOffset(t: Tracker): Point {
    Sub(t.pos, Add(t.anchor, t.anchor))
  }

  lemma {:induction false} BubbledMovesKeepDoubleOffset(t: Tracker, ps: seq<Point>)
    requires t.dragging
    ensures BubbledMoves(t, ps).dragging
    ensures DoubleOffset(BubbledMoves(t, ps)) == DoubleOffset(t)
    ensures BubbledMoves(t, ps).anchor == LastPoint(t.anchor, ps)
    decreases |ps|
  {
    if ps != [] {
      BubbledMovesKeepDoubleOffset(TouchMoveBubbled(t, ps[0]), ps[1..]);
      assert ps[1..] == [] || ps[1..][|ps[1..]| - 1] == ps[|ps| - 1];
    }
  }

  /** As written, a touch drag begun on the overlay at `p0` and moved through `ps`
      shifts the overlay by twice the finger's displacement. */
  lemma BubbledTelescoping(t: Tracker, p0: Point, ps: seq<Point>)
    ensures var d := Sub(LastPoint(p0, ps), p0);
      BubbledMoves(Down(t, p0), ps).pos == Add(t.pos, Add(d, d))
  {
    BubbledMovesKeepDoubleOffset(Down(t, p0), ps);
  }
}
