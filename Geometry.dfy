/**
 * Points and rectangles of Go's `image` package, as far as the layout code and
 * the observation extraction use them.
 */
module Geometry {

  datatype Point = Point(x: int, y: int)

  /** A rectangle holds the points with Min.X <= x < Max.X and Min.Y <= y < Max.Y. */
  datatype Rectangle = Rectangle(min: Point, max: Point) {

    /** Width as Go's `Rectangle.Dx`: may be negative for a malformed rectangle. */
    function Dx(): int { max.x - min.x }

    /** Height as Go's `Rectangle.Dy`. */
    function Dy(): int { max.y - min.y }

    /** Number of columns a `for x := Min.X; x < Max.X; x++` loop visits. */
    function Columns(): (n: nat)
      ensures n == 0 <==> max.x <= min.x
      ensures n > 0 ==> n == Dx()
    {
      if max.x > min.x then max.x - min.x else 0
    }

    /** Number of rows a `for y := Min.Y; y < Max.Y; y++` loop visits. */
    function Rows(): (n: nat)
      ensures n == 0 <==> max.y <= min.y
      ensures n > 0 ==> n == Dy()
    {
      if max.y > min.y then max.y - min.y else 0
    }

    predicate WellFormed() { min.x <= max.x && min.y <= max.y }

    /** This rectangle lies inside `r` (both well formed). */
    predicate Within(r: Rectangle) {
      r.min.x <= min.x && max.x <= r.max.x && r.min.y <= min.y && max.y <= r.max.y
    }

    /** No point lies in both rectangles. */
    predicate DisjointFrom(r: Rectangle) {
      max.x <= r.min.x || r.max.x <= min.x || max.y <= r.min.y || r.max.y <= min.y
    }
  }

  /**
   * Go's `image.Rect(x0, y0, x1, y1)`: the rectangle with those corners, with the
   * coordinates swapped where needed so that it is well formed.
   */
  function Rect(x0: int, y0: int, x1: int, y1: int): (r: Rectangle)
    ensures r.WellFormed()
    ensures x0 <= x1 ==> r.min.x == x0 && r.max.x == x1
    ensures x1 < x0 ==> r.min.x == x1 && r.max.x == x0
    ensures y0 <= y1 ==> r.min.y == y0 && r.max.y == y1
    ensures y1 < y0 ==> r.min.y == y1 && r.max.y == y0
  {
    var (lx, hx) := if x0 <= x1 then (x0, x1) else (x1, x0);
    var (ly, hy) := if y0 <= y1 then (y0, y1) else (y1, y0);
    Rectangle(Point(lx, ly), Point(hx, hy))
  }
}
