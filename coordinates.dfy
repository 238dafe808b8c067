/** A grid cell, `Coordinate { x: u32, y: u32 }` (src/core/board.rs:40-41). */
module Coordinates {

  /** `x` grows to the right, `y` grows down; both are unsigned. */
  datatype Coord = Coord(x: nat, y: nat)

  /** The offset from `c` to `n`. */
  function Offset(c: Coord, n: Coord): (int, int)
  {
    (n.x - c.x, n.y - c.y)
  }

  function Abs(i: int): nat
  {
    if i < 0 then -i else i
  }

  /** Chebyshev (king-move) distance between two cells. */
  function Chebyshev(a: Coord, b: Coord): nat
  {
    var dx, dy := Abs(b.x - a.x), Abs(b.y - a.y);
    if dx < dy then dy else dx
  }

  /** `n` is one of the eight cells around `c`. */
  predicate Adjacent(c: Coord, n: Coord)
  {
    Chebyshev(c, n) == 1
  }
}
