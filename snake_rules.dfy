/**
 * The rules of one round of Snake, as values: the state of the snake and of
 * the food, how an arrow key turns the snake, how one timer tick moves it,
 * and how food is placed by rejection sampling.
 *
 * These functions are the specification that the in-place methods of
 * SnakeGame.Game are proved against; SnakeLemmas states what they guarantee.
 */
module SnakeRules {

  /** Side of the square grid, in cells. */
  const GridSize: int := 20
  /** Capacity of the segment arrays: one entry per grid cell. */
  const Capacity: int := GridSize * GridSize
  /** Food coordinates are drawn from [0, FoodRange). */
  const FoodRange: int := GridSize - 2
  /** Initial timer interval, in milliseconds. */
  const SpeedInit: int := 100
  /** Both coordinates of the head after a reset. */
  const Center: int := GridSize / 2

  datatype Cell = Cell(x: int, y: int)

  /** The keys the key handler distinguishes; every other key is Other. */
  datatype Key = Up | Right | Down | Left | Other

  /** One pass of the placement loop: two raw results of rand(), which are never negative. */
  datatype Draw = Draw(rx: nat, ry: nat)

  /**
   * The snake and the food. `xs` and `ys` are the first `length` entries of
   * the parallel segment arrays (head at index 0); direction 0..3 is
   * up, right, down, left.
   */
  datatype GameState = GameState(
    xs: seq<int>, ys: seq<int>,
    direction: int, speed: int, score: int, gameOver: bool,
    food: Cell)

  /** The shape every reachable state has: a non-empty snake that fits its arrays. */
  predicate WellFormed(g: GameState) {
    1 <= |g.xs| == |g.ys| <= Capacity
  }

  function Head(g: GameState): Cell
    requires WellFormed(g)
  {
    Cell(g.xs[0], g.ys[0])
  }

  predicate InGrid(c: Cell) {
    0 <= c.x < GridSize && 0 <= c.y < GridSize
  }

  predicate InFoodRange(c: Cell) {
    0 <= c.x < FoodRange && 0 <= c.y < FoodRange
  }

  /** Some segment of the snake occupies cell c. */
  predicate OnSnake(c: Cell, xs: seq<int>, ys: seq<int>)
    requires |xs| == |ys|
  {
    exists i :: 0 <= i < |xs| && xs[i] == c.x && ys[i] == c.y
  }

  function Abs(n: int): nat {
    if n < 0 then -n else n
  }

  // ---------------------------------------------------------------- keys

  /** The direction an arrow key asks for. */
  function KeyDirection(key: Key): int
    requires key != Other
  {
    match key
    case Up => 0
    case Right => 1
    case Down => 2
    case Left => 3
  }

  function Opposite(direction: int): int {
    (direction + 2) % 4
  }

  /**
   * The direction after a key press: an arrow key is obeyed unless it asks
   * for the exact reversal of the current direction.
   */
  function Turn(direction: int, key: Key): (d: int)
    ensures 0 <= direction < 4 ==> 0 <= d < 4
  {
    if key == Other || direction == Opposite(KeyDirection(key)) then direction
    else KeyDirection(key)
  }

  // ------------------------------------------------------------ movement

  /** The cell one step from c in the given direction; an unknown direction does not move. */
  function Step(direction: int, c: Cell): (n: Cell)
    ensures 0 <= direction < 4 ==> Abs(n.x - c.x) + Abs(n.y - c.y) == 1
    ensures !(0 <= direction < 4) ==> n == c
  {
    if direction == 0 then Cell(c.x, c.y - 1)
    else if direction == 1 then Cell(c.x + 1, c.y)
    else if direction == 2 then Cell(c.x, c.y + 1)
    else if direction == 3 then Cell(c.x - 1, c.y)
    else c
  }

  /**
   * The body after the shift and the head move of one tick: every segment
   * takes its predecessor's place, the old tail is dropped and the head
   * takes one step.
   */
  function Move(g: GameState): (m: GameState)
    requires WellFormed(g)
    ensures WellFormed(m) && |m.xs| == |g.xs|
    ensures Head(m) == Step(g.direction, Head(g))
    ensures forall i :: 1 <= i < |g.xs| ==> m.xs[i] == g.xs[i - 1] && m.ys[i] == g.ys[i - 1]
    ensures m.direction == g.direction && m.speed == g.speed && m.score == g.score
    ensures m.gameOver == g.gameOver && m.food == g.food
  {
    var h := Step(g.direction, Head(g));
    g.(xs := [h.x] + g.xs[..|g.xs| - 1], ys := [h.y] + g.ys[..|g.ys| - 1])
  }

  /** The head has run into a segment behind it. */
  predicate HitsBody(m: GameState)
    requires WellFormed(m)
  {
    exists i :: 1 <= i < |m.xs| && m.xs[i] == m.xs[0] && m.ys[i] == m.ys[0]
  }

  /** The moved snake has left the grid or bitten itself: the round is over. */
  predicate Collides(m: GameState)
    requires WellFormed(m)
  {
    !InGrid(Head(m)) || HitsBody(m)
  }

  /** Eating: one more segment, a copy of the current last one, and one more point. */
  function Grow(m: GameState): (r: GameState)
    requires WellFormed(m) && |m.xs| < Capacity
    ensures WellFormed(r) && |r.xs| == |m.xs| + 1 && r.score == m.score + 1
    ensures r.xs[..|m.xs|] == m.xs && r.ys[..|m.ys|] == m.ys
    ensures r.xs[|m.xs|] == m.xs[|m.xs| - 1] && r.ys[|m.ys|] == m.ys[|m.ys| - 1]
    ensures r.direction == m.direction && r.speed == m.speed && r.food == m.food
  {
    m.(xs := m.xs + [m.xs[|m.xs| - 1]], ys := m.ys + [m.ys[|m.ys| - 1]], score := m.score + 1)
  }

  // ------------------------------------------------------- food placement

  /** The candidate cell a draw yields: each raw number reduced modulo FoodRange. */
  function Drawn(d: Draw): Cell {
    Cell(d.rx % FoodRange, d.ry % FoodRange)
  }

  /** The placement loop's condition: on a segment, or on the head cell. */
  predicate Rejected(c: Cell, xs: seq<int>, ys: seq<int>)
    requires 1 <= |xs| == |ys|
  {
    OnSnake(c, xs, ys) || (c.x == xs[0] && c.y == ys[0])
  }

  /** Some draw at index k or later yields an acceptable cell. */
  predicate FreeDrawFrom(xs: seq<int>, ys: seq<int>, draws: seq<Draw>, k: nat)
    requires 1 <= |xs| == |ys|
  {
    exists j :: k <= j < |draws| && !Rejected(Drawn(draws[j]), xs, ys)
  }

  /** The placement loop stops on these draws. */
  predicate CanSpawn(xs: seq<int>, ys: seq<int>, draws: seq<Draw>) {
    1 <= |xs| == |ys| && FreeDrawFrom(xs, ys, draws, 0)
  }

  /** The first acceptable cell among the draws from index k on. */
  function SpawnFrom(xs: seq<int>, ys: seq<int>, draws: seq<Draw>, k: nat): (c: Cell)
    requires 1 <= |xs| == |ys| && FreeDrawFrom(xs, ys, draws, k)
    ensures InFoodRange(c) && !Rejected(c, xs, ys)
    decreases |draws| - k
  {
    var c := Drawn(draws[k]);
    if !Rejected(c, xs, ys) then c else SpawnFrom(xs, ys, draws, k + 1)
  }

  /** Where the placement loop leaves the food. */
  function Spawn(xs: seq<int>, ys: seq<int>, draws: seq<Draw>): (c: Cell)
    requires CanSpawn(xs, ys, draws)
    ensures InFoodRange(c) && !OnSnake(c, xs, ys)
  {
    SpawnFrom(xs, ys, draws, 0)
  }

  // ---------------------------------------------------------- transitions

  /** Both reset paths place the food for a one-segment snake at the centre. */
  predicate CanReset(draws: seq<Draw>) {
    CanSpawn([Center], [Center], draws)
  }

  /** The state a new or restarted round begins in. */
  function ResetState(draws: seq<Draw>): (g: GameState)
    requires CanReset(draws)
  {
    GameState([Center], [Center], 0, SpeedInit, 0, false, Spawn([Center], [Center], draws))
  }

  /**
   * What a tick needs in order to finish: the food placement it triggers
   * must stop, and growth must stay inside the segment arrays.
   */
  predicate TickDefined(g: GameState, draws: seq<Draw>)
    requires WellFormed(g)
  {
    var m := Move(g);
    if Collides(m) then CanReset(draws)
    else Head(m) == m.food ==> |m.xs| < Capacity && CanSpawn(Grow(m).xs, Grow(m).ys, draws)
  }

  /** One timer tick: move, then either restart the round, eat, or carry on. */
  function TickState(g: GameState, draws: seq<Draw>): GameState
    requires WellFormed(g) && TickDefined(g, draws)
  {
    var m := Move(g);
    if Collides(m) then ResetState(draws)
    else if Head(m) == m.food then
      var r := Grow(m);
      r.(food := Spawn(r.xs, r.ys, draws))
    else m
  }

  /** What holds of every state a round passes through. */
  ghost predicate Invariant(g: GameState) {
    && WellFormed(g)
    && g.score + 1 == |g.xs|
    && 0 <= g.direction < 4
    && (forall i :: 0 <= i < |g.xs| ==> InGrid(Cell(g.xs[i], g.ys[i])))
    && InFoodRange(g.food)
    && !OnSnake(g.food, g.xs, g.ys)
  }
}
