/** Points in CSS pixels and the overlay's edge length. Pointer points are viewport
    (`clientX`/`clientY`) coordinates; the overlay position is its `left`/`top` inside
    the positioned container. Deltas between pointer points are the same in either
    frame as long as the container does not move during a drag. */
module Geometry {

  datatype Point = Point(x: int, y: int)

  function Add(p: Point, q: Point): Point {
    Point(p.x + q.x, p.y + q.y)
  }

  function Sub(p: Point, q: Point): Point {
    Point(p.x - q.x, p.y - q.y)
  }

  const MinSize := 50
  const MaxSize := 300

  /** The value a `range` input with min 50 and max 300 can report. */
  type OverlaySize = v: int | MinSize <= v <= MaxSize witness 100
}
