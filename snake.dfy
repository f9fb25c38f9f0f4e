/**
 * The snake: its body as a head-first list of cells, its heading and the
 * flag that makes the next move keep the tail.
 */
module Snakes {
  import opened Grid

  /** The body a new snake starts with: three cells in the middle row, head at the centre, facing right. */
  function StartBody(): (r: seq<Cell>)
    ensures |r| == 3 && r[0] == (COLS / 2, ROWS / 2)
    ensures forall i :: 1 <= i < |r| ==> r[i] == Step(r[i - 1], Opposite(RIGHT))
  {
    var x, y := COLS / 2, ROWS / 2;
    [(x, y), (x - 1, y), (x - 2, y)]
  }

  /**
   * The body after one move along `dir`: a new head one step ahead of the
   * old one, followed by the old body, whose last cell is dropped unless
   * the snake is growing.
   */
  function Moved(body: seq<Cell>, dir: Cell, grow: bool): (r: seq<Cell>)
    requires |body| > 0
    ensures |r| == if grow then |body| + 1 else |body|
    ensures r[0] == Step(body[0], dir)
    ensures forall i :: 1 <= i < |r| ==> r[i] == body[i - 1]
  {
    var kept := if grow then body else body[..|body| - 1];
    [Step(body[0], dir)] + kept
  }

  /**
   * The heading after a request to turn towards `d`: an exact reversal of
   * the current heading `cur` is ignored, anything else is taken.
   */
  function Turned(cur: Cell, d: Cell): (r: Cell)
    ensures r == cur || r == d
    ensures d != Opposite(cur) ==> r == d
  {
    if d == Opposite(cur) then cur else d
  }

  /** The starting snake lies on the board, is contiguous and has no repeated cell. */
  lemma StartBodyWellFormed()
    ensures StartBody() == [(15, 10), (14, 10), (13, 10)]
    ensures forall i :: 0 <= i < |StartBody()| ==> InGrid(StartBody()[i])
    ensures Contiguous(StartBody()) && NoDup(StartBody())
  {
  }

  /** A move along one of the four headings keeps the body contiguous. */
  lemma {:induction false} MovedContiguous(body: seq<Cell>, dir: Cell, grow: bool)
    requires |body| > 0 && Contiguous(body) && dir in DIRECTIONS
    ensures Contiguous(Moved(body, dir, grow))
  {
    var r := Moved(body, dir, grow);
    StepIsAdjacent(body[0], dir);
    forall i | 0 <= i < |r| - 1
      ensures Adjacent(r[i], r[i + 1])
    {
      if i > 0 {
        assert r[i] == body[i - 1] && r[i + 1] == body[i];
      }
    }
  }

  /**
   * Everything behind the new head was already part of the body: a cell
   * outside the old body can only enter the new one as its head.
   */
  lemma {:induction false} MovedTailInOldBody(body: seq<Cell>, dir: Cell, grow: bool, c: Cell)
    requires |body| > 0
    requires c in Moved(body, dir, grow)[1..]
    ensures c in body
  {
    var r := Moved(body, dir, grow);
    var k :| 1 <= k < |r| && r[k] == c;
    assert body[k - 1] == c;
  }

  /** A move whose new head does not hit the rest of the body keeps the body free of repeats. */
  lemma {:induction false} MovedNoDup(body: seq<Cell>, dir: Cell, grow: bool)
    requires |body| > 0 && NoDup(body)
    requires Moved(body, dir, grow)[0] !in Moved(body, dir, grow)[1..]
    ensures NoDup(Moved(body, dir, grow))
  {
    var r := Moved(body, dir, grow);
    forall i, j | 0 <= i < j < |r|
      ensures r[i] != r[j]
    {
      if i == 0 {
        assert r[j] == r[1..][j - 1];
      } else {
        assert r[i] == body[i - 1] && r[j] == body[j - 1];
      }
    }
  }

  /**
   * One consumption gives exactly one extra segment: a growing move adds
   * one cell, and the move after it (with the flag cleared) adds none.
   */
  lemma {:induction false} GrowthAddsOneSegment(body: seq<Cell>, d1: Cell, d2: Cell)
    requires |body| > 0
    ensures |Moved(Moved(body, d1, true), d2, false)| == |body| + 1
    ensures Moved(Moved(body, d1, true), d2, false)[2..] == body[..|body| - 1]
  {
    var once := Moved(body, d1, true);
    var twice := Moved(once, d2, false);
    forall i | 0 <= i < |body| - 1
      ensures twice[2..][i] == body[i]
    {
      assert twice[i + 2] == once[i + 1] == body[i];
    }
  }

  /** A turn request yields one of the four headings and is taken unless it is the reversal. */
  lemma TurnedTakenUnlessReversal(cur: Cell, d: Cell)
    requires cur in DIRECTIONS && d in DIRECTIONS
    ensures Turned(cur, d) in DIRECTIONS
    ensures Turned(cur, d) == d <==> d != Opposite(cur)
    ensures Turned(cur, d) == cur <==> d == cur || d == Opposite(cur)
  {
  }

  /** Whatever is requested, the new heading is never the reverse of the old one. */
  lemma TurnedNeverReverses(cur: Cell, d: Cell)
    requires cur in DIRECTIONS
    ensures Turned(cur, d) != Opposite(cur)
  {
  }

  /**
   * Each request is judged against the heading it finds, not the one the
   * snake last moved along: two requests in one frame can turn the snake
   * completely round.
   */
  lemma TwoTurnsCanReverse()
    ensures Turned(Turned(RIGHT, UP), LEFT) == Opposite(RIGHT)
    ensures Moved(StartBody(), Turned(Turned(RIGHT, UP), LEFT), false)[0] == StartBody()[1]
  {
  }

  class Snake {
    var body: seq<Cell>
    var dir: Cell
    var grow: bool

    /** The snake has a head, faces one of the four headings and its segments touch. */
    ghost predicate Valid()
      reads this
    {
      |body| >= 3 && dir in DIRECTIONS && Contiguous(body)
    }

    constructor ()
      ensures Valid()
      ensures body == StartBody() && dir == RIGHT && !grow
    {
      body := StartBody();
      dir := RIGHT;
      grow := false;
      new;
      StartBodyWellFormed();
    }

    function Head(): (h: Cell)
      reads this
      requires |body| > 0
      ensures h in body
    {
      body[0]
    }

    /** Advances one cell along the heading; keeps the tail once if growing, and clears the flag. */
    method Move()
      requires Valid()
      modifies this
      ensures Valid()
      ensures body == Moved(old(body), old(dir), old(grow))
      ensures dir == old(dir) && !grow
    {
      var (hx, hy) := Head();
      var (dx, dy) := dir;
      var newHead := (hx + dx, hy + dy);
      MovedContiguous(body, dir, grow);
      body := [newHead] + body;
      if !grow {
        body := body[..|body| - 1];
      } else {
        grow := false;
      }
    }

    /** Takes the requested heading unless it is the exact reverse of the current one. */
    method ChangeDir(newDir: Cell)
      requires Valid() && newDir in DIRECTIONS
      modifies this
      ensures Valid()
      ensures dir == Turned(old(dir), newDir)
      ensures body == old(body) && grow == old(grow)
    {
      var opposite := (-dir.0, -dir.1);
      if newDir != opposite {
        dir := newDir;
      }
    }
  }
}
