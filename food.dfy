/**
 * Food: one cell the snake does not occupy, drawn at random among the free
 * cells of the board, or absent when the snake covers the whole board.
 */
module Foods {
  import opened Wrappers
  import opened Grid

  /** Every cell of the board is part of the body. */
  predicate BoardFull(body: seq<Cell>) {
    forall x, y :: 0 <= x < COLS && 0 <= y < ROWS ==> (x, y) in body
  }

  /** The cells food may be placed on: every board cell the body does not hold. */
  function FreeCells(body: seq<Cell>): (free: set<Cell>)
    ensures forall c :: c in free <==> InGrid(c) && c !in body
  {
    set x, y | 0 <= x < COLS && 0 <= y < ROWS && (x, y) !in body :: (x, y)
  }

  /** What a placement of food must satisfy against the body it was drawn for. */
  ghost predicate Spawned(p: Option<Cell>, body: seq<Cell>) {
    && (p.Some? ==> InGrid(p.value) && p.value !in body)
    && (p.None? <==> BoardFull(body))
  }

  /** There is no free cell exactly when the body covers the board. */
  lemma NoFreeCellIffBoardFull(body: seq<Cell>)
    ensures FreeCells(body) == {} <==> BoardFull(body)
  {
    if FreeCells(body) != {} {
      var c :| c in FreeCells(body);
      assert c.0 >= 0 && c.1 >= 0 && !((c.0, c.1) in body);
    }
  }

  /**
   * Draws the position of a new piece of food against the body: some free
   * cell, or None when there is none. Which free cell is left open.
   */
  method RandomPos(body: seq<Cell>) returns (p: Option<Cell>)
    ensures Spawned(p, body)
  {
    var choices := FreeCells(body);
    NoFreeCellIffBoardFull(body);
    if choices != {} {
      var c :| c in choices;
      p := Some(c);
    } else {
      p := None;
    }
  }

  // ---------------------------------------------------------------------
  // Food is only ever absent once the snake fills all COLS * ROWS cells.

  /** The cells (x, 0), ..., (x, n - 1). */
  ghost function ColumnCells(x: int, n: int): set<Cell> {
    set y | 0 <= y < n :: (x, y)
  }

  /** The cells of the first m columns of the board. */
  ghost function BoardCells(m: int): set<Cell> {
    set x, y | 0 <= x < m && 0 <= y < ROWS :: (x, y)
  }

  lemma {:induction false} ColumnCellsCount(x: int, n: nat)
    ensures |ColumnCells(x, n)| == n
  {
    if n > 0 {
      ColumnCellsCount(x, n - 1);
      assert ColumnCells(x, n) == ColumnCells(x, n - 1) + {(x, n - 1)};
    }
  }

  lemma {:induction false} BoardCellsCount(m: nat)
    ensures |BoardCells(m)| == m * ROWS
  {
    if m > 0 {
      BoardCellsCount(m - 1);
      ColumnCellsCount(m - 1, ROWS);
      assert BoardCells(m) == BoardCells(m - 1) + ColumnCells(m - 1, ROWS);
      assert BoardCells(m - 1) !! ColumnCells(m - 1, ROWS);
      assert m * ROWS == (m - 1) * ROWS + ROWS;
    }
  }

  lemma {:induction false} CountAtMostLength(s: seq<Cell>)
    ensures |set c | c in s| <= |s|
  {
    if |s| > 0 {
      var t := s[1..];
      CountAtMostLength(t);
      assert (set c | c in s) == (set c | c in t) + {s[0]} by {
        assert s == [s[0]] + t;
      }
    }
  }

  lemma SubsetCount(a: set<Cell>, b: set<Cell>)
    requires a <= b
    ensures |a| <= |b|
  {
    assert b == a + (b - a);
  }

  /** A body that leaves no cell free has at least as many segments as the board has cells. */
  lemma {:induction false} FullBoardNeedsWholeGrid(body: seq<Cell>)
    requires BoardFull(body)
    ensures |body| >= COLS * ROWS
  {
    BoardCellsCount(COLS);
    CountAtMostLength(body);
    SubsetCount(BoardCells(COLS), set c | c in body);
  }

  /** So food is always placed while the snake is shorter than the board has cells. */
  lemma {:induction false} ShortSnakeAlwaysGetsFood(body: seq<Cell>, p: Option<Cell>)
    requires Spawned(p, body) && |body| < COLS * ROWS
    ensures p.Some?
  {
    if p.None? {
      FullBoardNeedsWholeGrid(body);
    }
  }

  class Food {
    var position: Option<Cell>

    constructor (body: seq<Cell>)
      ensures Spawned(position, body)
    {
      var p := RandomPos(body);
      position := p;
    }

    /** Draws a fresh position against the given body. */
    method Respawn(body: seq<Cell>)
      modifies this
      ensures Spawned(position, body)
    {
      position := RandomPos(body);
    }
  }
}
