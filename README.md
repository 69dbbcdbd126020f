# Snake game simulation, modelled in Dafny

This project models the simulation logic of a small SFML Snake game
(`main.cpp`). The model covers:

- the `Snake` class: a body of cells with the head first, a heading, and a one-shot
  `hasEaten` flag;
- `Food::respawn`, which places the food on a cell of the 20 x 20 grid;
- the selection counter of `Menu::update`;
- one simulation tick of the game loop.

Rendering, fonts, clocks and the window are left out.

Modules, one per component:

- `Grid` (`grid.dfy`): `GridSize = 20`, cells, the four headings, their opposites and the
  one-cell `Step`.
- `SnakeModel` (`snake.dfy`): the `Snake` class, with `body: seq<Cell>`, `direction` and
  `hasEaten`. Its members are the constructor, `Move`, `Grow`, `CheckCollision`,
  `SetDirection` and `GetHeadPosition`. The constructor, `Move`, `CheckCollision` and
  `SetDirection` are specified against a pure function: `InitialBody`, `Advance`,
  `Collides` or `Turn`. `Grow` and `GetHeadPosition` state their effect directly.
  `Valid()` says the body is non-empty and its consecutive cells are adjacent. The
  constructor establishes `Valid()` for every positive length, and `Move` preserves it.
  Adjacency is an extra invariant of the model, not something the source checks, and no
  member requires it.
- `FoodModel` (`food.dfy`): the `Food` class. `respawn` takes the two `rand()` draws as
  parameters, so it is deterministic. `SpawnCell` gives the resulting cell.
- `MenuModel` (`menu.dfy`): the `Menu` class with its `selectedItemIndex`, and the global
  `inGame` / `inGameOverScreen` flags that `Menu::update` writes (class `Flags`).
- `GameLoop` (`game.dfy`): `Tick`, one pass of main.cpp:339-349.

The food test at main.cpp:346 is not in an `else` of the collision test at
main.cpp:341, so one tick can both end the game and eat.
`GameLoop.CollisionAndMealInOneTick` exhibits such a state. It is possible because food
may spawn on the snake's body.

## Model

| member | source | states |
|---|---|---|
| Grid.Opposite | main.cpp:88-91 | the reverse heading (Up/Down, Left/Right) differs from the heading |
| Grid.OppositeInvolutive | main.cpp:88-91 | reversing twice gives back the heading |
| Grid.Step | main.cpp:41-54 | the new head is adjacent: Up is y-1, Down is y+1, Left is x-1, Right is x+1 |
| Grid.StepBack | main.cpp:41-54 | a step followed by a step along e returns to the start iff e is the opposite heading |
| SnakeModel.InitialBody | main.cpp:32-37 | n segments; segment k is (n-1-k, 0), so the head is (n-1,0) and the tail is (0,0) |
| SnakeModel.Snake.constructor | main.cpp:32-37 | the body is InitialBody(n) (empty when n <= 0), the heading is Right, hasEaten is false; the invariant holds iff n >= 1 |
| SnakeModel.InitialBodyConnected | main.cpp:32-37 | the initial layout is a connected line |
| SnakeModel.InitialBodySafe | main.cpp:32-37 | for 1 <= n <= 20, every initial cell is inside the grid and the initial body does not collide |
| SnakeModel.Advance | main.cpp:39-61 | the length grows by one iff the snake had eaten; the head is Step(old head, heading); cell i >= 1 is old cell i-1; after a meal the old tail is kept |
| SnakeModel.Snake.Move | main.cpp:39-61 | the body becomes Advance(old body, heading, old hasEaten); hasEaten is false afterwards; the heading is unchanged; the invariant is preserved |
| SnakeModel.AdvanceConnected | main.cpp:39-61 | a move keeps the body connected |
| SnakeModel.FirstMoves | main.cpp:39-61 | a fresh 3-cell snake moving Right becomes [(3,0),(2,0),(1,0)] without a collision; after a grow it becomes [(3,0),(2,0),(1,0),(0,0)] |
| SnakeModel.ReversalHitsNeck | main.cpp:39-85 | moving back the way the head came puts it on the neck; that collides when the body has 3+ cells or the snake has eaten; a 2-cell snake that has not eaten just swaps its cells |
| SnakeModel.ForwardMissesNeck | main.cpp:39-61 | any heading other than the reverse of the last step keeps the new head off the neck |
| SnakeModel.Snake.Grow | main.cpp:63-65 | hasEaten becomes true; body and heading are unchanged |
| SnakeModel.Snake.CheckCollision | main.cpp:71-85 | the result is true iff the head is outside [0,20)x[0,20), or the head equals body[i] for some i >= 1; no state changes |
| SnakeModel.RightWallCollision | main.cpp:71-76 | a head at (19,10) moving Right goes to (20,10), which collides |
| SnakeModel.Accepts | main.cpp:88-91 | the four-way guard accepts a heading iff it is not the opposite of the current heading |
| SnakeModel.Turn | main.cpp:87-94 | the new heading is never the opposite of the current one; it equals the requested heading iff that is not the opposite, and otherwise it is the current heading |
| SnakeModel.Snake.SetDirection | main.cpp:87-94 | the heading becomes Turn(old heading, d); body and hasEaten are unchanged |
| SnakeModel.TwoTurnsReverse | main.cpp:87-94 | Up then Left while moving Right reverses the heading, and a fresh 3-cell snake then collides on its next move |
| SnakeModel.Snake.GetHeadPosition | main.cpp:105-107 | returns body[0] |
| FoodModel.SpawnCell | main.cpp:124-126 | the cell is inside the grid, and each coordinate is its draw modulo 20 |
| FoodModel.SpawnCoversGrid | main.cpp:124-126 | every grid cell, including one under the snake, is a possible spawn point |
| FoodModel.SpawnPeriodic | main.cpp:124-126 | draws that differ by multiples of 20 give the same cell |
| FoodModel.Food.constructor | main.cpp:120-122 | a new food is placed as one respawn places it, inside the grid |
| FoodModel.Food.Respawn | main.cpp:124-126 | the position becomes SpawnCell(r1, r2), which is inside the grid |
| FoodModel.Food.GetPosition | main.cpp:135-137 | returns the position |
| MenuModel.NextIndex | main.cpp:192-205 | Up decrements only above 0; Down increments only below 1; other keys leave the index; indices in {0,1} stay there (Up gives 0, Down gives 1) |
| MenuModel.IndexAfterInRange | main.cpp:192-205 | any sequence of key presses keeps the index in {0,1} |
| MenuModel.LastArrowDecides | main.cpp:192-205 | a run whose last press is Up ends at 0, one whose last press is Down ends at 1; with no arrow key the index is unchanged |
| MenuModel.LastArrowWins | main.cpp:192-205 | after any run of presses containing an arrow key, the last Up or Down decides the item (0 or 1), whatever non-arrow keys follow it |
| MenuModel.DownTwice | main.cpp:200-205 | from 0, Down gives 1, and Down again stays at 1 |
| MenuModel.Flags.constructor | main.cpp:9-10 | both global flags start false |
| MenuModel.Menu.constructor | main.cpp:158 | the menu opens with index 0 |
| MenuModel.Menu.Update | main.cpp:191-219 | the index becomes NextIndex(old index, key) and stays in {0,1}; Enter on 0 sets inGame and clears inGameOverScreen; Enter on 1 requests a window close; otherwise the flags are unchanged |
| MenuModel.Menu.GetSelectedItemIndex | main.cpp:221-223 | returns the selected index |
| GameLoop.Tick | main.cpp:339-349 | the snake moves as in Move; game over iff the moved body collides; the snake eats iff the new head is on the food, and only then is the food respawned at SpawnCell(r1, r2) |
| GameLoop.CollisionAndMealInOneTick | main.cpp:341-349 | a connected, non-colliding snake exists whose next move both collides and lands on a spawnable food cell |

## Left out

- Drawing: `Snake::draw`, `Food::draw`, `Menu::draw`, the layout in
  `Menu::updateTextAppearance` and `fadeInGameOverScreen`. These are graphics-library
  calls with no game logic.
- The game-over fade (`gameOverScreenAlpha`, `fadeSpeed`): floating point, and used only
  for display.
- Font loading in the `Menu` constructor: file I/O.
- The `sf::Clock` gates: the 0.1 s tick interval and the 1.0 s game-over delay. They read
  the wall clock. A call of `GameLoop.Tick` is one tick, and its `gameOver` result is the
  value the loop assigns to its game-over flag.
- `rand()`: its two draws are the non-negative parameters `r1` and `r2`.
- `window.close()` in `Menu::update`: it is reported as the result `closeWindow`.
- The rest of `main`'s flag handling is not modelled: `inMenu`, the local
  `inGameOverScreen` that shadows the global one, the Enter key on the game-over screen,
  and the dispatch of arrow keys to `setDirection`. Worth knowing: the global `inGame` is
  never reset, so after the first game the arrow-key branch always wins, and the
  game-over Enter branch at main.cpp:310 is never reached.
- `Snake::addBodySegment`: it is never called.
- Grid.Step and SnakeModel.Advance: coordinates are unbounded integers. The source uses
  32-bit `int`, but during play the head leaves the grid by at most one cell before the
  game ends, so wrap-around cannot happen.
- SnakeModel.Snake.Move, SnakeModel.Snake.CheckCollision, SnakeModel.Snake.GetHeadPosition
  and GameLoop.Tick require a non-empty body. The source calls `body.front()` unguarded
  (main.cpp:40, 72, 106), which is undefined on an empty deque. Only `Snake(n)` with
  n <= 0 builds an empty body, and `main` only ever builds `Snake(3)` (main.cpp:276, 327).
