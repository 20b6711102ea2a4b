/**
 * The game as the program keeps it: one object holding the snake's fixed
 * parallel segment arrays with their length, direction, speed, score and
 * game-over flag, and the food cell. Each method changes those fields in
 * place the way the window callbacks do, and is proved to produce the state
 * that SnakeRules prescribes.
 */
module SnakeGame {
  import opened SnakeRules
  import SnakeLemmas

  class Game {
    /** Segment coordinates; only the first `length` entries are the snake. */
    const x: array<int>
    const y: array<int>
    var length: int
    var direction: int
    var speed: int
    var score: int
    var gameOver: bool
    var foodX: int
    var foodY: int

    /** The segment arrays exist, are distinct and have one entry per grid cell. */
    ghost predicate ArraysShaped()
      reads this
    {
      x.Length == Capacity && y.Length == Capacity && x != y
    }

    ghost predicate Valid()
      reads this
    {
      ArraysShaped() && 1 <= length <= Capacity
    }

    /** The abstract value of the object. */
    ghost function State(): (g: GameState)
      reads this, x, y
      requires Valid()
      ensures WellFormed(g)
    {
      GameState(x[..length], y[..length], direction, speed, score, gameOver, Cell(foodX, foodY))
    }

    /** Creating the window starts the first round. */
    constructor (draws: seq<Draw>)
      requires CanReset(draws)
      ensures Valid() && fresh(x) && fresh(y)
      ensures State() == ResetState(draws) && Invariant(State())
    {
      x := new int[Capacity];
      y := new int[Capacity];
      new;
      Reset(draws);
    }

    /** The state-setting part of window creation, also run to restart a round. */
    method Reset(draws: seq<Draw>)
      requires ArraysShaped() && CanReset(draws)
      modifies this, x, y
      ensures Valid() && State() == ResetState(draws) && Invariant(State())
    {
      SnakeLemmas.ResetEstablishesInvariant(draws);
      direction := 0;
      length := 1;
      x[0] := Center;
      y[0] := Center;
      speed := SpeedInit;
      score := 0;
      gameOver := false;
      assert x[..length] == [Center] && y[..length] == [Center];
      SpawnFood(draws);
    }

    /** Whether the food cell is one of the snake's segments. Changes nothing. */
    method IsFoodOnSnake() returns (found: bool)
      requires Valid()
      ensures found <==> OnSnake(Cell(foodX, foodY), x[..length], y[..length])
    {
      var i := 0;
      while i < length
        invariant 0 <= i <= length
        invariant forall j :: 0 <= j < i ==> !(foodX == x[j] && foodY == y[j])
      {
        if foodX == x[i] && foodY == y[i] {
          assert x[..length][i] == x[i] && y[..length][i] == y[i];
          return true;
        }
        i := i + 1;
      }
      return false;
    }

    /**
     * Rejection sampling: take the next draw, reduced into [0, FoodRange),
     * until it is neither on the snake nor on its head. Only the food moves.
     */
    method SpawnFood(draws: seq<Draw>)
      requires Valid() && CanSpawn(x[..length], y[..length], draws)
      modifies this`foodX, this`foodY
      ensures Cell(foodX, foodY) == Spawn(x[..length], y[..length], draws)
    {
      var k := 0;
      var rejected := true;
      while rejected
        invariant 0 <= k <= |draws|
        invariant rejected ==> FreeDrawFrom(x[..length], y[..length], draws, k)
        invariant rejected ==> Spawn(x[..length], y[..length], draws) == SpawnFrom(x[..length], y[..length], draws, k)
        invariant !rejected ==> Cell(foodX, foodY) == Spawn(x[..length], y[..length], draws)
        decreases |draws| - k
      {
        foodX := draws[k].rx % FoodRange;
        foodY := draws[k].ry % FoodRange;
        var onSnake := IsFoodOnSnake();
        rejected := onSnake || (foodX == x[0] && foodY == y[0]);
        k := k + 1;
      }
    }

    /** The first half of a tick: shift the body towards the tail, then step the head. */
    method Advance()
      requires Valid()
      modifies x, y
      ensures State() == Move(old(State()))
    {
      ghost var m := Move(State());
      ShiftBody();
      if direction == 0 {
        y[0] := y[0] - 1;
      } else if direction == 1 {
        x[0] := x[0] + 1;
      } else if direction == 2 {
        y[0] := y[0] + 1;
      } else if direction == 3 {
        x[0] := x[0] - 1;
      }
      assert x[0] == m.xs[0] && y[0] == m.ys[0];
      assert x[..length] == m.xs;
      assert y[..length] == m.ys;
    }

    /** Every segment after the head takes its predecessor's place, tail first. */
    method ShiftBody()
      requires Valid()
      modifies x, y
      ensures x[0] == old(x[0]) && y[0] == old(y[0])
      ensures forall j :: 1 <= j < length ==> x[j] == old(x[j - 1]) && y[j] == old(y[j - 1])
    {
      var i := length - 1;
      while i > 0
        invariant 0 <= i < length
        invariant forall j :: 0 <= j <= i ==> x[j] == old(x[j]) && y[j] == old(y[j])
        invariant forall j :: i < j < length ==> x[j] == old(x[j - 1]) && y[j] == old(y[j - 1])
      {
        x[i] := x[i - 1];
        y[i] := y[i - 1];
        i := i - 1;
      }
    }

    /**
     * One timer tick. A wall or self collision restarts the round; otherwise
     * landing on the food grows the snake, places new food and scores a point.
     * Returns whether the round was restarted.
     */
    method Tick(draws: seq<Draw>) returns (reset: bool, ghost restarts: nat)
      requires Valid() && TickDefined(State(), draws)
      modifies this, x, y
      ensures Valid()
      ensures State() == TickState(old(State()), draws)
      ensures reset == Collides(Move(old(State())))
      ensures Invariant(old(State())) ==> Invariant(State())
      ensures restarts == if reset then 1 else 0
    {
      ghost var before := State();
      if Invariant(before) {
        SnakeLemmas.TickPreservesInvariant(before, draws);
      }
      Advance();
      reset, restarts := CheckCollisions(draws);
      if reset {
        // the restarted snake sits at the centre and the food was placed off it
        assert x[..length][0] == x[0] && y[..length][0] == y[0];
      }
      EatFood(draws);
    }

    /**
     * The collision half of a tick: leaving the grid restarts the round, and so
     * does the head meeting any later segment. A restart leaves one segment, so
     * the scan ends at once: `restarts` counts the restarts, and is at most one.
     */
    method CheckCollisions(draws: seq<Draw>) returns (reset: bool, ghost restarts: nat)
      requires Valid() && (Collides(State()) ==> CanReset(draws))
      modifies this, x, y
      ensures Valid()
      ensures reset == Collides(old(State()))
      ensures State() == if reset then ResetState(draws) else old(State())
      ensures restarts == if reset then 1 else 0
    {
      ghost var m := State();
      reset, restarts := false, 0;
      if x[0] < 0 || x[0] >= GridSize || y[0] < 0 || y[0] >= GridSize {
        Reset(draws);
        reset, restarts := true, restarts + 1;
      }
      var i := 1;
      while i < length
        invariant Valid() && 1 <= i
        invariant restarts == if reset then 1 else 0
        invariant reset ==> Collides(m) && State() == ResetState(draws)
        invariant !reset ==> State() == m && i <= length && InGrid(Head(m))
        invariant !reset ==> forall j :: 1 <= j < i ==> !(m.xs[j] == m.xs[0] && m.ys[j] == m.ys[0])
      {
        if x[0] == x[i] && y[0] == y[i] {
          assert m.xs[i] == m.xs[0] && m.ys[i] == m.ys[0];
          Reset(draws);
          reset, restarts := true, restarts + 1;
        }
        i := i + 1;
      }
    }

    /**
     * The eating half of a tick: when the head is on the food, add a copy of
     * the last segment, place new food and score a point.
     */
    method EatFood(draws: seq<Draw>)
      requires Valid()
      requires Head(State()) == State().food ==>
                 length < Capacity && CanSpawn(Grow(State()).xs, Grow(State()).ys, draws)
      modifies this, x, y
      ensures Valid()
      ensures State() == if Head(old(State())) == old(State()).food
                         then Grow(old(State())).(food := Spawn(Grow(old(State())).xs, Grow(old(State())).ys, draws))
                         else old(State())
    {
      if x[0] == foodX && y[0] == foodY {
        ghost var before := State();
        length := length + 1;
        x[length - 1] := x[length - 2];
        y[length - 1] := y[length - 2];
        assert x[..length] == before.xs + [before.xs[|before.xs| - 1]];
        assert y[..length] == before.ys + [before.ys[|before.ys| - 1]];
        SpawnFood(draws);
        score := score + 1;
      }
    }

    /** An arrow key turns the snake unless it asks for the reverse direction. */
    method KeyDown(key: Key)
      modifies this`direction
      ensures direction == Turn(old(direction), key)
      ensures Valid() && Invariant(old(State())) ==> Invariant(State())
    {
      match key
      case Up =>
        if direction != 2 {
          direction := 0;
        }
      case Right =>
        if direction != 3 {
          direction := 1;
        }
      case Down =>
        if direction != 0 {
          direction := 2;
        }
      case Left =>
        if direction != 1 {
          direction := 3;
        }
      case Other =>
    }
  }
}
