/**
 * The playing field: a fixed grid of cells addressed by integer (x, y)
 * pairs, and the four headings a snake can take.
 */
module Grid {

  /** Number of columns and rows of the board. */
  const COLS: int := 30
  const ROWS: int := 20

  /** A grid coordinate, or a heading when used as a unit delta. */
  type Cell = (int, int)

  const UP: Cell := (0, -1)
  const DOWN: Cell := (0, 1)
  const LEFT: Cell := (-1, 0)
  const RIGHT: Cell := (1, 0)

  /** The only headings the game ever passes around. */
  const DIRECTIONS: set<Cell> := {UP, DOWN, LEFT, RIGHT}

  /** The cell lies on the board. */
  predicate InGrid(c: Cell) {
    0 <= c.0 < COLS && 0 <= c.1 < ROWS
  }

  /** The heading that points the other way. */
  function Opposite(d: Cell): Cell {
    (-d.0, -d.1)
  }

  /** The cell reached from `c` by one step along `d`. */
  function Step(c: Cell, d: Cell): Cell {
    (c.0 + d.0, c.1 + d.1)
  }

  function Abs(n: int): nat {
    if n < 0 then -n else n
  }

  /** The two cells share an edge. */
  predicate Adjacent(a: Cell, b: Cell) {
    Abs(a.0 - b.0) + Abs(a.1 - b.1) == 1
  }

  /** Each segment of the body touches the next one. */
  predicate Contiguous(body: seq<Cell>) {
    forall i :: 0 <= i < |body| - 1 ==> Adjacent(body[i], body[i + 1])
  }

  /** No cell occurs twice. */
  predicate NoDup(s: seq<Cell>) {
    forall i, j :: 0 <= i < j < |s| ==> s[i] != s[j]
  }

  /** Stepping along any of the four headings reaches a neighbouring cell. */
  lemma StepIsAdjacent(c: Cell, d: Cell)
    requires d in DIRECTIONS
    ensures Adjacent(Step(c, d), c)
    ensures Step(c, d) != c
  {
  }

  /** No heading is its own opposite, and the four are closed under reversal. */
  lemma OppositeOfDirection(d: Cell)
    requires d in DIRECTIONS
    ensures Opposite(d) in DIRECTIONS && Opposite(d) != d
    ensures Opposite(Opposite(d)) == d
  {
  }
}
