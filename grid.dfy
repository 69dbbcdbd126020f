/** The playing field: a square of GridSize x GridSize cells, the four
    headings, and the one-cell step the snake takes along a heading. */
module Grid {

  /** Side of the square playing field, in cells (main.cpp:5). */
  const GridSize: int := 20

  /** One grid square. Coordinates are unbounded: a head that has just
      left the field is a legal intermediate value. */
  datatype Cell = Cell(x: int, y: int)

  datatype Direction = Up | Down | Left | Right

  /** True when the cell lies inside [0, GridSize) x [0, GridSize). */
  predicate InGrid(c: Cell) {
    0 <= c.x < GridSize && 0 <= c.y < GridSize
  }

  /** Two cells are adjacent when they share a side. */
  predicate Adjacent(a: Cell, b: Cell) {
    (a.x == b.x && (a.y == b.y + 1 || a.y == b.y - 1)) ||
    (a.y == b.y && (a.x == b.x + 1 || a.x == b.x - 1))
  }

  /** The heading that undoes d: Up and Down, Left and Right. */
  function Opposite(d: Direction): (r: Direction)
    ensures r != d
  {
    match d
    case Up => Down
    case Down => Up
    case Left => Right
    case Right => Left
  }

  /** The cell one unit from c along d; y grows downwards. */
  function Step(c: Cell, d: Direction): (r: Cell)
    ensures Adjacent(r, c)
    ensures d == Up ==> r == Cell(c.x, c.y - 1)
    ensures d == Down ==> r == Cell(c.x, c.y + 1)
    ensures d == Left ==> r == Cell(c.x - 1, c.y)
    ensures d == Right ==> r == Cell(c.x + 1, c.y)
  {
    match d
    case Up => Cell(c.x, c.y - 1)
    case Down => Cell(c.x, c.y + 1)
    case Left => Cell(c.x - 1, c.y)
    case Right => Cell(c.x + 1, c.y)
  }

  lemma OppositeInvolutive(d: Direction)
    ensures Opposite(Opposite(d)) == d
  {
  }

  /** A step followed by a step the opposite way returns to the start,
      and no other heading does. */
  lemma StepBack(c: Cell, d: Direction, e: Direction)
    ensures Step(Step(c, d), e) == c <==> e == Opposite(d)
  {
  }
}
