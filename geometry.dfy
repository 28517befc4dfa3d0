// Integer geometry of a slide: points, the container's frame rectangle and
// the offsets a transition gives the outgoing and the incoming page.

module Geometry {

  /** An integer point, as a position or as a displacement. */
  datatype Point = Point(x: int, y: int)

  /** The container's frame: top-left corner and extent. */
  datatype Rect = Rect(left: int, top: int, width: int, height: int)

  /** The axis along which pages slide. Any direction other than horizontal slides vertically. */
  datatype Axis = Horizontal | Vertical

  const Origin: Point := Point(0, 0)

  function TopLeft(r: Rect): Point { Point(r.left, r.top) }

  function Add(p: Point, q: Point): Point { Point(p.x + q.x, p.y + q.y) }

  function Neg(p: Point): Point { Point(-p.x, -p.y) }

  /** The vector that takes a page from `from` to `to`. */
  function Displacement(from: Point, to: Point): Point { Point(to.x - from.x, to.y - from.y) }

  /** Where the incoming page starts, relative to the frame's corner: one frame
      extent ahead along the axis when moving forward, one behind otherwise. */
  function IncomingOffset(axis: Axis, forward: bool, frame: Rect): Point
  {
    match axis
    case Horizontal => if forward then Point(frame.width, 0) else Point(-frame.width, 0)
    case Vertical => if forward then Point(0, frame.height) else Point(0, -frame.height)
  }

  /** Where the outgoing page ends, relative to the frame's corner. */
  function OutgoingEnd(axis: Axis, forward: bool, frame: Rect): Point
  {
    match axis
    case Horizontal => if forward then Point(-frame.width, 0) else Point(frame.width, 0)
    case Vertical => if forward then Point(0, -frame.height) else Point(0, frame.height)
  }

  /** The outgoing page leaves toward the side opposite to the one the incoming page comes from. */
  lemma OutgoingMirrorsIncoming(axis: Axis, forward: bool, frame: Rect)
    ensures OutgoingEnd(axis, forward, frame) == Neg(IncomingOffset(axis, forward, frame))
  {
  }

  /** The incoming offset lies on the configured axis, has the frame's extent along
      it, and points forward exactly when the transition is forward. */
  lemma IncomingOffsetOnAxis(axis: Axis, forward: bool, frame: Rect)
    requires frame.width > 0 && frame.height > 0
    ensures var o := IncomingOffset(axis, forward, frame);
      match axis
      case Horizontal => o.y == 0 && (o.x > 0 <==> forward) && (o.x == frame.width || o.x == -frame.width)
      case Vertical => o.x == 0 && (o.y > 0 <==> forward) && (o.y == frame.height || o.y == -frame.height)
  {
  }

  /** Measured from the position the incoming page is parked at before the
      animation (corner plus offset), both pages travel the same vector. */
  lemma ParkedPagesMoveTogether(axis: Axis, forward: bool, frame: Rect)
    ensures var c := TopLeft(frame);
      Displacement(c, Add(c, OutgoingEnd(axis, forward, frame)))
      == Displacement(Add(c, IncomingOffset(axis, forward, frame)), c)
  {
  }

  /** The incoming animation starts at the bare offset (without the corner), while
      the outgoing one ends at corner plus offset; the two tweens therefore move
      their pages by the same vector exactly when the frame's corner is the origin. */
  lemma AnimatedPagesMoveTogetherIffCornerAtOrigin(axis: Axis, forward: bool, frame: Rect)
    ensures var c := TopLeft(frame);
      Displacement(c, Add(c, OutgoingEnd(axis, forward, frame)))
        == Displacement(IncomingOffset(axis, forward, frame), c)
      <==> c == Origin
  {
  }
}
