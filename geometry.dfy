/** Integer rectangles as the game uses them: `(x, y, w, h)` with the y axis pointing down. */
module Geometry {

  datatype Rect = Rect(x: int, y: int, w: int, h: int) {
    function Left(): int { x }
    function Top(): int { y }
    function Right(): int { x + w }
    function Bottom(): int { y + h }
  }

  /** Strict axis-aligned overlap: rectangles that only touch along an edge do not collide. */
  predicate Collide(a: Rect, b: Rect) {
    a.Left() < b.Right() && b.Left() < a.Right() && a.Top() < b.Bottom() && b.Top() < a.Bottom()
  }
}
