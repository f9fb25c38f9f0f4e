/**
 * One game session: the snake, the food, the score, the best score of the
 * session and the game-over flag, with the per-tick step and the restart.
 */
module Game {
  import opened Wrappers
  import opened Grid
  import opened Snakes
  import opened Foods

  /** A move ends the game when the new head leaves the board or lands on another segment. */
  predicate Collides(body: seq<Cell>)
    requires |body| > 0
    ensures !Collides(body) ==> InGrid(body[0]) && forall i :: 1 <= i < |body| ==> body[i] != body[0]
  {
    !InGrid(body[0]) || body[0] in body[1..]
  }

  /**
   * The food check runs even on the tick that ends the game, but it can
   * never fire then: food sits on the board outside the body, a head off
   * the board is not on it, and a head on another segment is on a cell
   * the old body already held.
   */
  lemma {:induction false} CollisionNeverEats(body: seq<Cell>, dir: Cell, grow: bool, food: Cell)
    requires |body| > 0 && InGrid(food) && food !in body
    requires Collides(Moved(body, dir, grow))
    ensures Moved(body, dir, grow)[0] != food
  {
    var moved := Moved(body, dir, grow);
    if InGrid(moved[0]) {
      MovedTailInOldBody(body, dir, grow, moved[0]);
    }
  }

  /** Food that the new head did not reach stays outside the moved body. */
  lemma {:induction false} UneatenFoodStaysOutside(body: seq<Cell>, dir: Cell, grow: bool, food: Cell)
    requires |body| > 0 && food !in body
    requires Moved(body, dir, grow)[0] != food
    ensures food !in Moved(body, dir, grow)
  {
  }

  /**
   * Once the body covers the whole board, the next growing move collides:
   * the new head is either off the board or on a cell the body already
   * holds. The moved body still covers the board.
   */
  lemma {:induction false} FullBoardGrowthCollides(body: seq<Cell>, dir: Cell)
    requires |body| > 0 && BoardFull(body)
    ensures Collides(Moved(body, dir, true)) && BoardFull(Moved(body, dir, true))
  {
    var moved := Moved(body, dir, true);
    assert moved[1..] == body;
    if InGrid(moved[0]) {
      assert (moved[0].0, moved[0].1) in body;
    }
  }

  /** From the start position, a tick without input moves every segment one cell to the right. */
  lemma OpeningMove()
    ensures Moved(StartBody(), RIGHT, false) == [(16, 10), (15, 10), (14, 10)]
    ensures !Collides(Moved(StartBody(), RIGHT, false))
  {
  }

  /** A snake on the left edge heading left runs off the board. */
  lemma LeftWallEndsGame()
    ensures Collides(Moved([(0, 10), (1, 10), (2, 10)], LEFT, false))
  {
  }

  class GameState {
    var snake: Snake
    var food: Food
    var score: nat
    var highScore: nat
    var gameOver: bool

    /**
     * While the game runs the head is on the board and no cell repeats;
     * food, when present, is on the board and off the snake; food is absent
     * only when the body covers the board, and then the snake is about to
     * grow or the game is over; the best score is never below the current one.
     */
    ghost predicate Valid()
      reads this, snake, food
    {
      && snake.Valid()
      && (!gameOver ==> InGrid(snake.body[0]) && NoDup(snake.body))
      && (food.position.Some? ==> InGrid(food.position.value) && food.position.value !in snake.body)
      && (food.position.None? ==> BoardFull(snake.body) && (snake.grow || gameOver))
      && score <= highScore
    }

    /** A new session: a fresh snake, food placed on a free cell, both scores zero. */
    constructor ()
      ensures Valid() && fresh(snake) && fresh(food)
      ensures snake.body == StartBody() && snake.dir == RIGHT && !snake.grow
      ensures Spawned(food.position, snake.body) && food.position.Some?
      ensures score == 0 && highScore == 0 && !gameOver
    {
      var s := new Snake();
      var f := new Food(s.body);
      snake, food := s, f;
      score, highScore, gameOver := 0, 0, false;
      new;
      StartBodyWellFormed();
      ShortSnakeAlwaysGetsFood(snake.body, food.position);
    }

    /**
     * One tick of the simulation. Nothing happens once the game is over.
     * Otherwise the snake moves; the game ends if the new head is off the
     * board or, failing that, on another segment; then, whatever the
     * collision checks found, a head on the food eats it: the snake will
     * grow on its next move, the score goes up by one, the best score
     * follows it and new food is drawn against the moved body.
     */
    method Tick()
      requires Valid()
      modifies this, snake, food
      ensures Valid()
      ensures snake == old(snake) && food == old(food) && snake.dir == old(snake.dir)
      ensures old(gameOver) ==>
        && gameOver
        && snake.body == old(snake.body) && snake.grow == old(snake.grow)
        && food.position == old(food.position)
        && score == old(score) && highScore == old(highScore)
      ensures !old(gameOver) ==>
        var moved := Moved(old(snake.body), old(snake.dir), old(snake.grow));
        var ate := old(food.position) == Some(moved[0]);
        && snake.body == moved
        && gameOver == Collides(moved)
        && (gameOver ==> !ate)
        && snake.grow == ate
        && score == (if ate then old(score) + 1 else old(score))
        && highScore == (if score > old(highScore) then score else old(highScore))
        && (ate ==> Spawned(food.position, moved))
        && (!ate ==> food.position == old(food.position))
      ensures highScore >= old(highScore)
    {
      if !gameOver {
        ghost var body0, dir0, grow0, food0 := snake.body, snake.dir, snake.grow, food.position;
        snake.Move();
        var (hx, hy) := snake.Head();

        // Rule 1: collision with a wall.
        if hx < 0 || hx >= COLS || hy < 0 || hy >= ROWS {
          gameOver := true;
        // Rule 2: collision with the snake itself.
        } else if snake.Head() in snake.body[1..] {
          gameOver := true;
        }
        if food0.Some? && gameOver {
          CollisionNeverEats(body0, dir0, grow0, food0.value);
        }
        if food0.None? {
          FullBoardGrowthCollides(body0, dir0);
        }

        // Rule 3: food eaten.
        if food.position.Some? && snake.Head() == food.position.value {
          snake.grow := true;
          score := score + 1;
          if score > highScore {
            highScore := score;
          }
          food.Respawn(snake.body);
        } else if food0.Some? {
          UneatenFoodStaysOutside(body0, dir0, grow0, food0.value);
        }
        if !gameOver {
          MovedNoDup(body0, dir0, grow0);
        }
      }
    }

    /** The key handler's turn request: judged by the snake, whether or not the game is over. */
    method ChangeDir(d: Cell)
      requires Valid() && d in DIRECTIONS
      modifies snake
      ensures Valid()
      ensures snake.dir == Turned(old(snake.dir), d)
      ensures snake.body == old(snake.body) && snake.grow == old(snake.grow)
    {
      snake.ChangeDir(d);
    }

    /**
     * Restart is honoured only once the game is over: it brings a new
     * snake and new food, puts the score back to zero and resumes play;
     * the best score is kept.
     */
    method Restart()
      requires Valid()
      modifies this
      ensures Valid()
      ensures highScore == old(highScore)
      ensures !old(gameOver) ==> unchanged(this)
      ensures old(gameOver) ==>
        && fresh(snake) && fresh(food)
        && snake.body == StartBody() && snake.dir == RIGHT && !snake.grow
        && Spawned(food.position, snake.body) && food.position.Some?
        && score == 0 && !gameOver
    {
      if gameOver {
        var s := new Snake();
        var f := new Food(s.body);
        snake, food := s, f;
        score, gameOver := 0, false;
        StartBodyWellFormed();
        ShortSnakeAlwaysGetsFood(snake.body, food.position);
      }
    }
  }
}
