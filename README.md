# Snake: a verified model of the grid simulation

This project models the simulation core of a single-player snake game on a
30 × 20 grid (`snake.py`). The snake is a head-first list of cells with a
heading and a grow flag. Food is one free cell drawn at random, or nothing
when the snake covers the board. A session holds the snake, the food, the
score, the best score of the session and a game-over flag. Each tick moves
the snake, ends the game on a wall or self collision, and then, whatever the
collision checks found, lets a head that lands on the food eat it.

Modules, one per component of the source:

- `Wrappers` (`wrappers.dfy`): `Option`, standing for Python's `None`.
- `Grid` (`grid.dfy`): the board size `COLS`, `ROWS`, cells as integer pairs,
  the four headings `UP`, `DOWN`, `LEFT`, `RIGHT`, and the predicates `InGrid`,
  `Adjacent`, `Contiguous` and `NoDup`.
- `Snakes` (`snake.dfy`): class `Snake`, whose `Move` and `ChangeDir` update
  its fields in place. They are specified by the functions `Moved` and
  `Turned`, and the lemmas beside them state what a move and a turn do.
- `Foods` (`food.dfy`): `FreeCells` is the set of board cells outside the
  body, the cells the source's comprehension lists. `RandomPos` picks any one
  of them (the choice is left open with `:|`) or returns `None` when there is
  none. Class `Food` holds the position and re-draws it.
- `Game` (`game.dfy`): class `GameState` gathers what `main` keeps in local
  variables (`snake`, `food`, `score`, `high_score`, `game_over`), with
  `Tick` (the body of the game loop's `if not game_over`), `ChangeDir` (the
  arrow-key handler) and `Restart` (the `R` key). Its `Valid()` invariant is
  kept by every method:
  - while the game runs, the head is on the board and no cell repeats;
  - food, when present, is on the board and not on the snake;
  - food is absent only when the body covers the board, and then the snake
    is about to grow or the game is over;
  - `score <= highScore`.

The food check after the collision checks is unconditional in the source.
`CollisionNeverEats` proves it can never fire on the tick that ends the
game, so this ordering has no visible effect. `TwoTurnsCanReverse` records
another consequence of the code as written. Each turn request is judged
against the heading the previous request left. So two key presses within
one frame (`UP` then `LEFT` while moving `RIGHT`) turn the snake completely
round, onto its second segment.

## Model

| member | source | states |
|---|---|---|
| `Snakes.StartBody` | snake.py:23-24 | the starting body has three segments, its head at the centre cell `(COLS // 2, ROWS // 2)`, each further segment one cell to the left of the one before it |
| `Snakes.StartBodyWellFormed` | snake.py:23-27 | the starting body is `[(15,10),(14,10),(13,10)]`; it lies on the 30 × 20 board, is contiguous and has no repeated cell |
| `Snakes.Snake.constructor` | snake.py:23-27 | a new snake has the starting body, heading `RIGHT`, grow flag off, and satisfies the snake invariant |
| `Snakes.Snake.Head` | snake.py:29-30 | the head is a cell of the body |
| `Snakes.Moved` | snake.py:32-40 | after a move the head is one step ahead of the old head along the heading; every other segment takes the place of the one before it; the length grows by one exactly when the grow flag was set |
| `Snakes.Snake.Move` | snake.py:32-40 | the body becomes `Moved(old body, heading, old grow flag)`, the heading is kept, the grow flag is cleared, and the snake stays contiguous |
| `Snakes.MovedContiguous` | snake.py:32-40 | a move along one of the four headings keeps a contiguous body contiguous |
| `Snakes.MovedTailInOldBody` | snake.py:36-38 | every cell behind the new head was a cell of the old body |
| `Snakes.MovedNoDup` | snake.py:32-40 | a body without repeats keeps none after a move whose head does not land on another segment |
| `Snakes.GrowthAddsOneSegment` | snake.py:32-40 | a growing move followed by a normal one leaves exactly one extra segment, with the old body (less its last cell) dragged two cells behind the head |
| `Snakes.Turned` | snake.py:42-45 | the new heading is either the old one or the requested one, and it is the requested one whenever the request is not the exact reverse of the old heading |
| `Snakes.Snake.ChangeDir` | snake.py:42-45 | the heading becomes `Turned(old heading, request)`; body and grow flag are untouched |
| `Snakes.TurnedTakenUnlessReversal` | snake.py:42-45 | a request is taken if and only if it is not the exact reverse of the current heading, and the heading is left unchanged if and only if the request is that reverse or the current heading itself |
| `Snakes.TurnedNeverReverses` | snake.py:42-45 | whatever is requested, the new heading is never the reverse of the old one |
| `Snakes.TwoTurnsCanReverse` | snake.py:121-132 | `UP` then `LEFT` while heading `RIGHT` leaves heading `LEFT`, and the next move from the start puts the head on the second segment |
| `Foods.FreeCells` | snake.py:54 | a cell is a candidate for food if and only if it is on the board and not in the body |
| `Foods.NoFreeCellIffBoardFull` | snake.py:54-55 | there is no candidate cell if and only if every board cell is in the body |
| `Foods.RandomPos` | snake.py:53-55 | the result is a board cell outside the body, or `None`, and it is `None` exactly when every board cell is in the body |
| `Foods.FullBoardNeedsWholeGrid` | snake.py:53-55 | a body that leaves no free cell has at least `COLS * ROWS` = 600 segments |
| `Foods.ShortSnakeAlwaysGetsFood` | snake.py:53-55 | a snake shorter than 600 segments always gets a food cell |
| `Foods.Food.constructor` | snake.py:50-51 | new food is placed by the `RandomPos` rule against the given body |
| `Foods.Food.Respawn` | snake.py:57-58 | the position is redrawn by the `RandomPos` rule against the given body |
| `Game.Collides` | snake.py:145-151 | a body that does not collide has its head on the board and on no other segment |
| `Game.CollisionNeverEats` | snake.py:145-159 | on a tick whose move collides, the new head is not the food cell, given food on the board and off the old body |
| `Game.UneatenFoodStaysOutside` | snake.py:154-159 | food the new head did not reach is still outside the moved body |
| `Game.FullBoardGrowthCollides` | snake.py:141-151 | when the body covers the board, the next growing move collides, and the moved body still covers the board |
| `Game.OpeningMove` | snake.py:24-40 | from the start, a move to the right gives `[(16,10),(15,10),(14,10)]` and no collision |
| `Game.LeftWallEndsGame` | snake.py:146-147 | the body `[(0,10),(1,10),(2,10)]` moving `LEFT` runs off the board |
| `Game.GameState.constructor` | snake.py:113-115 | a session starts with a fresh starting snake, food on a free board cell (never absent, since three segments cannot cover the board), score and best score 0, game running |
| `Game.GameState.Tick` | snake.py:141-159 | once over, a tick changes nothing. Otherwise: the body is moved; the game ends exactly on a wall or self collision; food is eaten exactly when the new head is on it, and never on a colliding tick; eating sets the grow flag, adds one to the score, raises the best score to the score if needed and redraws food against the moved body; otherwise food and score stay. The best score never decreases and the session invariant is kept |
| `Game.GameState.ChangeDir` | snake.py:125-132 | a turn request updates the heading by the reversal rule, also while the game is over, and keeps the session invariant |
| `Game.GameState.Restart` | snake.py:133-137 | ignored unless the game is over; then a new starting snake, new food on a free board cell (never absent), score 0 and play resumed; the best score is kept either way |

## Left out

- Drawing, fonts and the display (`snake.py:61-79`, `161-184`): rendering with no effect on the game state.
- Event polling, the key-to-heading mapping, `clock.tick(FPS)`, the `running` flag and quitting (`snake.py:84-88`, `119-124`, `138-139`, `186-187`): input and timing. `GameState.ChangeDir` and `GameState.Restart` stand for the key presses.
- The level-selection screen and the frame rates (`snake.py:90-110`): they change only how often a tick runs, not what it does.
- The distribution of `random.choice`: `RandomPos` promises only that the chosen cell is one of the free cells, not that each is equally likely. For the same reason the free cells are a set: the column-by-column order of the source's list only matters to which cell a given random draw picks.
- `Snakes.Snake.ChangeDir` and `Game.GameState.ChangeDir` require the request to be one of the four headings. The source accepts any pair, but its only callers pass `UP`, `DOWN`, `LEFT` or `RIGHT`.
