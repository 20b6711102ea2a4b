# Snake game logic, modelled and verified in Dafny

This project models the game logic of a small Win32 Snake game. The snake lives on a
20 × 20 grid. It is stored as two parallel coordinate arrays of capacity 400 (head at
index 0), together with a length, a direction (0 up, 1 right, 2 down, 3 left), a timer
interval, a score and a game-over flag. The food is one cell. Each timer tick shifts the
body one place towards the tail and steps the head. Leaving the grid, or meeting a later
segment, restarts the round. Landing on the food grows the snake, scores a point and
places new food. An arrow key turns the snake unless it asks for the exact reversal.
Food is placed by rejection sampling over [0, 18)². The C function `isFoodOnSnake` returns 1 or 0, and the model returns `true` or `false`.

Files:

- `snake_rules.dfy`, module `SnakeRules`: the specification, as values. It holds the game
  state `GameState`, key handling (`Turn`), head movement (`Step`, `Move`), growth
  (`Grow`), food placement (`SpawnFrom`, `Spawn`), a whole tick (`TickState`), a reset
  (`ResetState`) and the invariant every state keeps.
- `snake_game.dfy`, module `SnakeGame`: class `Game`. It has fixed `array<int>` fields `x`
  and `y` of length 400, plus the scalar fields of the snake and the food. Its methods do
  what the window callbacks do, in place, with the source's own loops, and each one is
  proved to produce the state that `SnakeRules` prescribes.
- `snake_lemmas.dfy`, module `SnakeLemmas`: the properties of those rules.

`rand()` is replaced by a parameter: a sequence of `Draw`s, each holding the two raw
non-negative results that one pass of the placement loop takes from `rand()`. Each result
is reduced with `% 18`. For non-negative operands Dafny's `%` agrees with C's. The
placement stops at the first draw whose cell is acceptable. So the loop stops only if some
draw is acceptable, and that is the precondition of food placement. The game state is one
object, where the source has two global structs.

Points where the code's behaviour may be unexpected; the model follows the code in each:

- Growth copies the segment that is last *after* the shift. The old tail position is not
  used. A one-segment snake at (10,10) heading up onto food at (10,9) ends with both
  segments at (10,9), not at (10,9) and (10,10) (`SnakeLemmas.EatingFromTheStart`).
- A tick that restarts the round shrinks the snake to one segment. So length grows by
  exactly one on eating and is otherwise unchanged only on ticks that do not collide.
- Food is drawn from [0, 18)² only: the last two rows and columns are never used.
- The source runs the restart code inside the tick, and can reach it from both the wall
  test and the self-collision scan. The model runs that code as written. `CheckCollisions`
  proves that a restart leaves one segment, so the scan stops at once; its ghost result
  `restarts` counts the restarts and is proved to be at most one. `Tick` proves that
  the restarted head is never on the new food, so no growth follows.

## Model

| member | source | states |
|---|---|---|
| `SnakeGame.Game.constructor` | appWindows.c:134-145 | creating the game yields exactly the reset state: length 1, head at (10,10), direction up, speed 100, score 0, game-over false, food placed off the snake; the invariant holds |
| `SnakeGame.Game.Reset` | appWindows.c:306-309 | restarting sets every field to the reset state and places the food by the placement loop; the invariant holds afterwards |
| `SnakeGame.Game.IsFoodOnSnake` | snake.c:14-21 | true iff some index i < length has (x[i], y[i]) equal to the food cell; it changes no field or array element |
| `SnakeGame.Game.SpawnFood` | snake.c:23-29 | the do-while loop leaves the food at the first draw (mod 18) that is neither on a segment nor on the head; only the food fields change |
| `SnakeGame.Game.Advance` | appWindows.c:209-228 | after the downward in-place shift and the direction switch, the segments equal `Move` of the old state: segment i is old segment i-1 and the head has taken one step |
| `SnakeGame.Game.ShiftBody` | appWindows.c:209-212 | the downward in-place loop leaves segment i equal to old segment i-1 for 1 <= i < length and keeps the head |
| `SnakeGame.Game.CheckCollisions` | appWindows.c:231-249 | restarts iff the head is off the grid or equals a segment with index at least 1; then the state is exactly the reset state, otherwise nothing changed; the restart count is 1 when it restarts and 0 otherwise |
| `SnakeGame.Game.EatFood` | appWindows.c:252-265 | if the head is on the food, length and score rise by one, the new last segment copies the one before it and food is placed off the grown snake; otherwise nothing changes |
| `SnakeGame.Game.Tick` | appWindows.c:206-265 | the state after a tick is `TickState` of the old one, the result says whether the round restarted, the round restarts at most once, and the invariant is kept |
| `SnakeGame.Game.KeyDown` | appWindows.c:278-299 | direction becomes `Turn(old direction, key)`; nothing but the direction may change; the invariant is kept |
| `SnakeRules.Turn` | appWindows.c:278-299 | a direction in 0..3 stays in 0..3 |
| `SnakeRules.Step` | appWindows.c:215-228 | a direction in 0..3 moves the head exactly one cell; any other value leaves it in place |
| `SnakeRules.Move` | appWindows.c:209-228 | length is kept, segment i takes old segment i-1's place for 1 <= i < length, the head takes one step, and no other field changes |
| `SnakeRules.Grow` | appWindows.c:254-258 | length and score each rise by one, the old segments are kept as a prefix, and the new last segment equals the previous last one |
| `SnakeRules.SpawnFrom` | snake.c:25-28 | the food picked from the draws starting at index k lies in [0,18)² and is neither on the snake nor its head |
| `SnakeRules.Spawn` | snake.c:23-29 | the placed food lies in [0,18)² and is on no segment |
| `SnakeLemmas.TurnObeysUnlessReversal` | appWindows.c:280-295 | an arrow key sets its direction iff the current direction is not its opposite ((d+2) mod 4); otherwise the direction is kept |
| `SnakeLemmas.TurnNeverReverses` | appWindows.c:278-299 | no key press ever sets the direction opposite to the current one |
| `SnakeLemmas.TurnRepeatIsNoOp` | appWindows.c:280-297 | re-pressing the current direction, or pressing a non-arrow key, leaves the direction unchanged |
| `SnakeLemmas.KeyDownPreservesInvariant` | appWindows.c:278-299 | a key press keeps the game invariant, direction in 0..3 included |
| `SnakeLemmas.HeadTestRedundant` | snake.c:28 | with length at least 1 the loop condition equals the on-snake test alone |
| `SnakeLemmas.SpawnFromIsFirstAccepted` | snake.c:25-28 | from index k, the placement picks some draw j whose cell is accepted, and every draw from k to j-1 was rejected |
| `SnakeLemmas.SpawnIsFirstAccepted` | snake.c:23-29 | the placed food is the cell of the first accepted draw |
| `SnakeLemmas.PlacementNeedsFreeCell` | snake.c:25-28 | the placement can stop only if some cell of [0,18)² is free of the snake |
| `SnakeLemmas.ResetEstablishesInvariant` | appWindows.c:134-145 | the reset state satisfies the invariant and is length 1, head (10,10), direction up, speed 100, score 0, not over, food off the head |
| `SnakeLemmas.TickPreservesInvariant` | appWindows.c:206-265 | every tick keeps score + 1 == length, 1 <= length <= 400, direction in 0..3, every segment on the grid, food in [0,18)² and on no segment |
| `SnakeLemmas.TickGrowsIffEats` | appWindows.c:252-265 | on a tick without collision length grows iff the stepped head is on the food, by one; the score tracks the growth; food is unchanged when not eaten |
| `SnakeLemmas.TickMovesBody` | appWindows.c:209-228 | on a tick without collision segment i is old segment i-1 and the head is exactly one cell from the old head |
| `SnakeLemmas.TickGrowthCopiesLast` | appWindows.c:254-261 | after eating, the new last segment equals the one before it and the new food is on no segment |
| `SnakeLemmas.WallCollisionResets` | appWindows.c:231-238 | a head stepping off the grid makes the tick end in exactly the reset state |
| `SnakeLemmas.BorderExitResets` | appWindows.c:215-238 | heading outwards from a border cell, in any of the four directions, ends the round |
| `SnakeLemmas.SelfCollisionResets` | appWindows.c:241-249 | a head stepping onto the old cell of any segment, the tail excepted, is a collision and the tick ends in the reset state |
| `SnakeLemmas.EatingFromTheStart` | appWindows.c:252-264 | snake at (10,10) heading up, food at (10,9): afterwards segments (10,9),(10,9), score 1, new food elsewhere |
| `SnakeLemmas.LeftWallExample` | appWindows.c:225-237 | head at (0,5) heading left: the tick is defined and ends in the reset state |

## Left out

- Window class registration, the message loop, window procedure dispatch, painting and brush creation and deletion (`WinMain`, `WndProc`, `WM_paint`, `InitializeBrushes`, `DestroyBrushes`, `main`): platform glue with no game logic.
- `SetTimer`, `KillTimer` and `InvalidateRect`: operating-system timer and repaint effects. `speed` is kept as a field because it only feeds the timer.
- `rand()` and `srand(time(NULL))`: replaced by the supplied draw sequence, with no distribution modelled.
- The brush leak on repeated restarts: a resource issue outside the logic.
- `gameOver` is modelled only as the flag a restart clears, because nothing sets it.
- The contents of the segment arrays beyond `length`: `State()` abstracts them away, and no method's contract describes them.
- `SnakeGame.Game.Tick`: requires that every food placement the tick triggers can stop, and that growth has room, that is length < 400 before eating. The source simply hangs, or writes past its arrays, when these fail.
- `SnakeGame.Game.SpawnFood`: the unbounded rejection loop is bounded by the finite draw sequence. A sequence with no acceptable draw is excluded by the precondition instead of looping for ever.
