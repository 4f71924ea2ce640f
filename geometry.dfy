/**
 * Points, sizes and rectangles of the sidebar's coordinate system.
 * Coordinates are exact reals: the rounding of CGFloat is not modelled.
 */
module Geometry {
  datatype Point = Point(x: real, y: real)

  datatype Size = Size(width: real, height: real)

  /** A rectangle given by its origin and (possibly negative) size, like CGRect. */
  datatype Rect = Rect(x: real, y: real, width: real, height: real)
  {
    /** Edges of the standardised rectangle: a negative size extends left of / above the origin. */
    function MinX(): real { if width < 0.0 then x + width else x }
    function MaxX(): real { if width < 0.0 then x else x + width }
    function MinY(): real { if height < 0.0 then y + height else y }
    function MaxY(): real { if height < 0.0 then y else y + height }

    /** A point lies in a rectangle when it is on or past the low edges and strictly before the high ones. */
    predicate Contains(p: Point)
    {
      MinX() <= p.x < MaxX() && MinY() <= p.y < MaxY()
    }
  }

  /** CGRect.zero, the frame of a freshly created view. */
  const ZeroRect := Rect(0.0, 0.0, 0.0, 0.0)
}
