/**
 * What the rules guarantee: the invariants every tick and key press keep,
 * how a tick grows, moves or restarts the snake, how the key handler refuses
 * reversals, and which cell the food placement settles on.
 */
module SnakeLemmas {
  import opened SnakeRules

  // ------------------------------------------------------------------ keys

  /** An arrow key is obeyed exactly when it does not ask for the reverse direction. */
  lemma TurnObeysUnlessReversal(direction: int, key: Key)
    requires 0 <= direction < 4 && key != Other
    ensures Turn(direction, key) == KeyDirection(key) <==> direction != Opposite(KeyDirection(key))
    ensures Turn(direction, key) != KeyDirection(key) ==> Turn(direction, key) == direction
  {
  }

  /** No key press ever turns the snake round onto itself. */
  lemma TurnNeverReverses(direction: int, key: Key)
    requires 0 <= direction < 4
    ensures Turn(direction, key) != Opposite(direction)
  {
  }

  /** Pressing the key of the current direction, or a non-arrow key, changes nothing. */
  lemma TurnRepeatIsNoOp(direction: int, key: Key)
    requires key == Other || (0 <= direction < 4 && direction == KeyDirection(key))
    ensures Turn(direction, key) == direction
  {
  }

  lemma KeyDownPreservesInvariant(g: GameState, key: Key)
    requires Invariant(g)
    ensures Invariant(g.(direction := Turn(g.direction, key)))
  {
  }

  // ------------------------------------------------------- food placement

  /** With a non-empty snake the extra head test of the placement loop adds nothing. */
  lemma HeadTestRedundant(c: Cell, xs: seq<int>, ys: seq<int>)
    requires 1 <= |xs| == |ys|
    ensures Rejected(c, xs, ys) <==> OnSnake(c, xs, ys)
  {
  }

  /** The placement settles on the first draw, from index k on, whose cell is acceptable. */
  lemma {:induction false} SpawnFromIsFirstAccepted(xs: seq<int>, ys: seq<int>, draws: seq<Draw>, k: nat)
    requires 1 <= |xs| == |ys| && FreeDrawFrom(xs, ys, draws, k)
    ensures exists j :: k <= j < |draws| && SpawnFrom(xs, ys, draws, k) == Drawn(draws[j])
                        && forall i :: k <= i < j ==> Rejected(Drawn(draws[i]), xs, ys)
    decreases |draws| - k
  {
    if Rejected(Drawn(draws[k]), xs, ys) {
      SpawnFromIsFirstAccepted(xs, ys, draws, k + 1);
      var j :| k + 1 <= j < |draws| && SpawnFrom(xs, ys, draws, k + 1) == Drawn(draws[j])
               && forall i :: k + 1 <= i < j ==> Rejected(Drawn(draws[i]), xs, ys);
      assert forall i :: k <= i < j ==> Rejected(Drawn(draws[i]), xs, ys);
    } else {
      assert SpawnFrom(xs, ys, draws, k) == Drawn(draws[k]);
    }
  }

  lemma SpawnIsFirstAccepted(xs: seq<int>, ys: seq<int>, draws: seq<Draw>)
    requires CanSpawn(xs, ys, draws)
    ensures exists j :: 0 <= j < |draws| && Spawn(xs, ys, draws) == Drawn(draws[j])
                        && forall i :: 0 <= i < j ==> Rejected(Drawn(draws[i]), xs, ys)
  {
    SpawnFromIsFirstAccepted(xs, ys, draws, 0);
  }

  /** The placement can only stop when the snake leaves a food cell free. */
  lemma PlacementNeedsFreeCell(xs: seq<int>, ys: seq<int>, draws: seq<Draw>)
    requires CanSpawn(xs, ys, draws)
    ensures exists c :: InFoodRange(c) && !OnSnake(c, xs, ys)
  {
  }

  // ----------------------------------------------------------------- reset

  /** A restarted round is the canonical one-segment snake, and it satisfies the invariant. */
  lemma ResetEstablishesInvariant(draws: seq<Draw>)
    requires CanReset(draws)
    ensures Invariant(ResetState(draws))
    ensures var g := ResetState(draws);
      && |g.xs| == 1 && Head(g) == Cell(Center, Center)
      && g.direction == 0 && g.speed == SpeedInit && g.score == 0 && !g.gameOver
      && g.food != Head(g)
  {
  }

  // ------------------------------------------------------------------ ticks

  /** Every tick keeps the invariant. */
  lemma TickPreservesInvariant(g: GameState, draws: seq<Draw>)
    requires Invariant(g) && TickDefined(g, draws)
    ensures Invariant(TickState(g, draws))
  {
  }

  /**
   * A tick that does not collide grows the snake by one segment, and scores
   * one point, exactly when the head lands on the food; otherwise the length,
   * the score and the food stay as they were.
   */
  lemma TickGrowsIffEats(g: GameState, draws: seq<Draw>)
    requires WellFormed(g) && TickDefined(g, draws) && !Collides(Move(g))
    ensures var r := TickState(g, draws);
      && (|r.xs| == |g.xs| + 1 <==> Step(g.direction, Head(g)) == g.food)
      && (|r.xs| == |g.xs| || |r.xs| == |g.xs| + 1)
      && r.score - g.score == |r.xs| - |g.xs|
      && (Step(g.direction, Head(g)) != g.food ==> r.food == g.food)
      && r.direction == g.direction && r.speed == g.speed
  {
  }

  /**
   * On a tick that does not collide, segment i takes the old place of segment
   * i - 1 (the old tail is dropped) and the head moves one cell.
   */
  lemma TickMovesBody(g: GameState, draws: seq<Draw>)
    requires WellFormed(g) && TickDefined(g, draws) && !Collides(Move(g))
    requires 0 <= g.direction < 4
    ensures var r := TickState(g, draws);
      && (forall i :: 1 <= i < |g.xs| ==> r.xs[i] == g.xs[i - 1] && r.ys[i] == g.ys[i - 1])
      && Abs(r.xs[0] - g.xs[0]) + Abs(r.ys[0] - g.ys[0]) == 1
  {
  }

  /** The segment added by eating repeats the segment before it. */
  lemma TickGrowthCopiesLast(g: GameState, draws: seq<Draw>)
    requires WellFormed(g) && TickDefined(g, draws) && !Collides(Move(g))
    requires Step(g.direction, Head(g)) == g.food
    ensures var r := TickState(g, draws);
      && |r.xs| == |g.xs| + 1
      && r.xs[|r.xs| - 1] == r.xs[|r.xs| - 2] && r.ys[|r.ys| - 1] == r.ys[|r.ys| - 2]
      && !OnSnake(r.food, r.xs, r.ys)
  {
  }

  /** A head that steps off the grid restarts the round, with nothing eaten. */
  lemma WallCollisionResets(g: GameState, draws: seq<Draw>)
    requires WellFormed(g) && TickDefined(g, draws)
    requires !InGrid(Step(g.direction, Head(g)))
    ensures TickState(g, draws) == ResetState(draws)
  {
  }

  /** From a border cell, heading out of the grid ends the round. */
  lemma BorderExitResets(g: GameState, draws: seq<Draw>)
    requires WellFormed(g) && TickDefined(g, draws)
    requires || (g.ys[0] == 0 && g.direction == 0)
             || (g.xs[0] == GridSize - 1 && g.direction == 1)
             || (g.ys[0] == GridSize - 1 && g.direction == 2)
             || (g.xs[0] == 0 && g.direction == 3)
    ensures TickState(g, draws) == ResetState(draws)
  {
  }

  /**
   * A head that steps onto the old place of any segment except the tail
   * (which moves away in the same tick) restarts the round.
   */
  lemma SelfCollisionResets(g: GameState, draws: seq<Draw>, j: int)
    requires WellFormed(g) && TickDefined(g, draws)
    requires 0 <= j < |g.xs| - 1 && Step(g.direction, Head(g)) == Cell(g.xs[j], g.ys[j])
    ensures Collides(Move(g))
    ensures TickState(g, draws) == ResetState(draws)
  {
    var m := Move(g);
    assert m.xs[j + 1] == m.xs[0] && m.ys[j + 1] == m.ys[0];
  }

  // --------------------------------------------------------------- examples

  /**
   * A fresh snake heading up onto food just above it: afterwards it has two
   * segments, both on the food's old cell, one point, and new food off it.
   */
  lemma EatingFromTheStart(draws: seq<Draw>)
    requires var g := GameState([Center], [Center], 0, SpeedInit, 0, false, Cell(Center, Center - 1));
      TickDefined(g, draws)
    ensures var r := TickState(GameState([Center], [Center], 0, SpeedInit, 0, false, Cell(Center, Center - 1)), draws);
      && r.xs == [Center, Center] && r.ys == [Center - 1, Center - 1]
      && r.score == 1 && r.direction == 0
      && r.food != Cell(Center, Center - 1)
  {
  }

  /** A head on the left border heading left ends the round. */
  lemma LeftWallExample(xs: seq<int>, ys: seq<int>, draws: seq<Draw>)
    requires 1 <= |xs| == |ys| <= Capacity && xs[0] == 0 && ys[0] == 5
    requires CanReset(draws)
    ensures var g := GameState(xs, ys, 3, SpeedInit, |xs| - 1, false, Cell(3, 3));
      TickDefined(g, draws) && TickState(g, draws) == ResetState(draws)
  {
  }
}
