/**
 * Session: the whole game state as a value, and one frame of the game loop as
 * a function of it. Each step of the loop is a function of its own, in the
 * order the loop runs them: move the car (dooming nearby tiles), apply gravity
 * (possibly ending and resetting the run), update and refill the road,
 * recompute the level, count the frame.
 */
module Session {
  import opened Difficulty
  import opened Platform
  import opened Grid
  import opened Vehicle

  /** score, currentLevel, gameStarted, the car and the road. */
  datatype World = World(score: nat, level: int, started: bool, car: Car, road: seq<Segment>)

  /**
   * What holds of every world the game can be in between steps: a valid level,
   * the car inside the bounds and not below the fall threshold, one well-formed
   * tile per occupied cell.
   */
  predicate Consistent(w: World)
  {
    1 <= w.level <= MaxLevel &&
    InBounds(w.car) && FallThreshold <= w.car.y <= StartY &&
    DistinctCells(w.road) && AllWellFormed(w.road)
  }

  /** The level is the one the score had before the last frame counted itself. */
  predicate LevelTracksScore(w: World)
  {
    w.level == LevelFor(if w.score == 0 then 0 else w.score - 1)
  }

  /** The invariant of the game between frames. */
  predicate Inv(w: World)
  {
    Consistent(w) && LevelTracksScore(w)
  }

  /**
   * resetGame: score 0, level 1, not running, the car back at the start, and
   * the road replaced by a new initial road whose tiles wait the level-1 delay.
   */
  function ResetWorld(): World
  {
    World(0, 1, false, StartCar, InitialRoad(CollapseTime(1)))
  }

  /**
   * After a reset: score 0, level 1, not running, the car at (0, 1, 0), and
   * exactly the 400 distinct cells of [-10, 10) x [-10, 10), all tiles new.
   */
  lemma ResetState()
    ensures var w := ResetWorld();
      w.score == 0 && w.level == 1 && !w.started &&
      w.car.x == 0 && w.car.y == StartY && w.car.z == 0 &&
      |w.road| == 400 && DistinctCells(w.road) &&
      (forall c :: HasCell(w.road, c) <==> -InitialHalf <= c.x < InitialHalf && -InitialHalf <= c.z < InitialHalf) &&
      (forall i :: 0 <= i < |w.road| ==> w.road[i] == Fresh(w.road[i].cell, MaxCollapseTime))
    ensures Inv(ResetWorld())
  {
    InitialRoadShape(CollapseTime(1));
    var road := ResetWorld().road;
    forall i | 0 <= i < |road|
      ensures WellFormed(road[i])
    {
      FreshWellFormed(road[i].cell, MaxCollapseTime);
    }
  }

  /**
   * The final tick of the countdown: running, score 0, level 1, the car and the
   * road as they are. Started from a consistent world it gives the invariant.
   */
  function StartRun(w: World): (r: World)
    ensures r.started && r.score == 0 && r.level == 1 && r.car == w.car && r.road == w.road
    ensures Consistent(w) ==> Inv(r)
  {
    w.(started := true, score := 0, level := 1)
  }

  /** updateCarPosition, including its call of handlePlatformCollapse. */
  function AfterMove(w: World, keys: Keys): World
  {
    var car := MoveCar(w.car, keys);
    w.(car := car, road := MarkCollapsing(w.road, car.x, car.z))
  }

  /** The car has no support and one more frame of gravity takes it below the threshold. */
  predicate FallsOut(w: World)
  {
    !Supported(w.road, w.car.x, w.car.z) && w.car.y + Gravity < FallThreshold
  }

  /**
   * handleVerticalMovement: without support the car sinks by one step, and if
   * that takes it below the threshold gameOver resets the world.
   */
  function AfterVertical(w: World): (r: World)
    ensures Supported(w.road, w.car.x, w.car.z) ==> r == w
    ensures !Supported(w.road, w.car.x, w.car.z) && w.car.y + Gravity >= FallThreshold ==>
      r == w.(car := w.car.(y := w.car.y + Gravity))
    ensures !Supported(w.road, w.car.x, w.car.z) && w.car.y + Gravity < FallThreshold ==>
      r == ResetWorld()
  {
    if Supported(w.road, w.car.x, w.car.z) then w
    else
      var fallen := w.(car := w.car.(y := w.car.y + Gravity));
      if fallen.car.y < FallThreshold then ResetWorld() else fallen
  }

  /** The road part of updateRoadSegments: prune, then fill the window around the car. */
  function AfterRoad(w: World): World
  {
    var window := Window(GridOf(w.car.x), GridOf(w.car.z));
    w.(road := Fill(Prune(w.road), window, CollapseTime(w.level)))
  }

  /** updateDifficulty: only the level changes, to the level of the current score. */
  function AfterDifficulty(w: World): (r: World)
    ensures r.score == w.score && r.started == w.started && r.car == w.car && r.road == w.road
    ensures 1 <= r.level <= MaxLevel && r.level == LevelFor(w.score)
  {
    w.(level := LevelFor(w.score))
  }

  /**
   * gameLoop: nothing when the game is not running; otherwise the steps in the
   * loop's order, then one more point. The steps after a game over still run,
   * on the reset world.
   */
  function Frame(w: World, keys: Keys): World
  {
    if !w.started then w
    else
      var after := AfterDifficulty(AfterRoad(AfterVertical(AfterMove(w, keys))));
      after.(score := after.score + 1)
  }

  /** The frame ends the run. */
  predicate EndsRun(w: World, keys: Keys)
  {
    w.started && FallsOut(AfterMove(w, keys))
  }

  // ---------------------------------------------------------------------------
  // What each step does.

  /**
   * Moving: the car moves as MoveCar says, and at its new position every tile
   * within the collapse radius starts collapsing. The tiles stay in their cells
   * and in their order, and the score, the level and the running flag are
   * unchanged.
   */
  lemma MoveEffect(w: World, keys: Keys)
    ensures var r := AfterMove(w, keys);
      r.score == w.score && r.level == w.level && r.started == w.started &&
      r.car == MoveCar(w.car, keys) && |r.road| == |w.road|
    ensures var r := AfterMove(w, keys);
      forall i :: 0 <= i < |w.road| ==>
        r.road[i].cell == w.road[i].cell &&
        r.road[i] == if Within(w.road[i].cell, r.car.x, r.car.z, CollapseRadius) then Collapsed(w.road[i]) else w.road[i]
  {
  }

  /**
   * Updating the road: afterwards every cell within 15 of the car's cell on both
   * axes holds a tile, every tile that survived pruning is still there, and
   * nothing but the road changes.
   */
  lemma RoadEffect(w: World)
    ensures var r := AfterRoad(w);
      r.score == w.score && r.level == w.level && r.started == w.started && r.car == w.car
    ensures forall c: Cell ::
      GridOf(w.car.x) - RenderDistance <= c.x <= GridOf(w.car.x) + RenderDistance &&
      GridOf(w.car.z) - RenderDistance <= c.z <= GridOf(w.car.z) + RenderDistance ==>
      HasCell(AfterRoad(w).road, c)
    ensures forall s :: s in Prune(w.road) ==> s in AfterRoad(w).road
  {
    var window := Window(GridOf(w.car.x), GridOf(w.car.z));
    FillCells(Prune(w.road), window, CollapseTime(w.level));
    WindowMembers(GridOf(w.car.x), GridOf(w.car.z));
    FillShape(Prune(w.road), window, CollapseTime(w.level));
  }

  // ---------------------------------------------------------------------------
  // Each step keeps the world consistent.

  lemma MoveConsistent(w: World, keys: Keys)
    requires Consistent(w)
    ensures Consistent(AfterMove(w, keys))
  {
    var car := MoveCar(w.car, keys);
    MarkInvariant(w.road, car.x, car.z);
  }

  lemma VerticalConsistent(w: World)
    requires Consistent(w)
    ensures Consistent(AfterVertical(w))
  {
    ResetState();
  }

  lemma RoadConsistent(w: World)
    requires Consistent(w)
    ensures Consistent(AfterRoad(w))
  {
    PruneInvariant(w.road);
    var window := Window(GridOf(w.car.x), GridOf(w.car.z));
    FillDistinct(Prune(w.road), window, CollapseTime(w.level));
    FillWellFormed(Prune(w.road), window, CollapseTime(w.level));
  }

  /** Moving and gravity leave no cell occupied twice. */
  lemma MidFrameDistinct(w: World, keys: Keys)
    requires Consistent(w)
    ensures DistinctCells(AfterVertical(AfterMove(w, keys)).road)
  {
    MoveConsistent(w, keys);
    VerticalConsistent(AfterMove(w, keys));
  }

  /** Every frame keeps the game's invariant. */
  lemma {:induction false} FramePreservesInv(w: World, keys: Keys)
    requires Inv(w)
    ensures Inv(Frame(w, keys))
  {
    if w.started {
      var w1 := AfterMove(w, keys);
      MoveConsistent(w, keys);
      var w2 := AfterVertical(w1);
      VerticalConsistent(w1);
      var w3 := AfterRoad(w2);
      RoadConsistent(w2);
      assert w3.score == w2.score;
    }
  }

  // ---------------------------------------------------------------------------
  // What one frame does.

  /**
   * The run ends in a frame exactly when, at the car's new position, no solid
   * tile holds it up and it is less than one step above the threshold.
   */
  lemma EndsRunExactly(w: World, keys: Keys)
    ensures EndsRun(w, keys) <==>
      w.started &&
      !Supported(w.road, MoveCar(w.car, keys).x, MoveCar(w.car, keys).z) &&
      w.car.y + Gravity < FallThreshold
  {
    var car := MoveCar(w.car, keys);
    MarkKeepsSupport(w.road, car.x, car.z, car.x, car.z);
  }

  /**
   * Whether a frame ends the run decides the game's state afterwards: the game
   * keeps running exactly when it was running and the frame does not end the
   * run, and a running frame leaves score 1 when it ends the run and one more
   * point otherwise.
   */
  lemma FrameOutcome(w: World, keys: Keys)
    ensures Frame(w, keys).started <==> w.started && !EndsRun(w, keys)
    ensures w.started ==> Frame(w, keys).score == if EndsRun(w, keys) then 1 else w.score + 1
  {
  }

  /** A frame of a world that is not running changes nothing. */
  lemma StoppedFrame(w: World, keys: Keys)
    requires !w.started
    ensures Frame(w, keys) == w
  {
  }

  /**
   * A running frame that does not end the run: one more point, the level of
   * the old score, the car moved and clamped, sunk by exactly one step iff no
   * solid tile supports it at its new position, every cell within 15 of its new
   * cell occupied, no cell occupied twice, and the level never lower than before.
   */
  lemma {:induction false} RunningFrame(w: World, keys: Keys)
    requires Inv(w) && w.started && !EndsRun(w, keys)
    ensures var r, car := Frame(w, keys), MoveCar(w.car, keys);
      r.started && r.score == w.score + 1 && r.level == LevelFor(w.score) && r.level >= w.level &&
      r.car.x == car.x && r.car.z == car.z && r.car.heading == car.heading &&
      r.car.y == (if Supported(w.road, car.x, car.z) then w.car.y else w.car.y + Gravity) &&
      (forall c: Cell ::
        GridOf(car.x) - RenderDistance <= c.x <= GridOf(car.x) + RenderDistance &&
        GridOf(car.z) - RenderDistance <= c.z <= GridOf(car.z) + RenderDistance ==>
        HasCell(r.road, c)) &&
      DistinctCells(r.road)
  {
    var car := MoveCar(w.car, keys);
    var w1 := AfterMove(w, keys);
    MarkKeepsSupport(w.road, car.x, car.z, car.x, car.z);
    MoveConsistent(w, keys);
    var w2 := AfterVertical(w1);
    assert w2.car.x == car.x && w2.car.z == car.z && w2.score == w.score && w2.level == w.level;
    VerticalConsistent(w1);
    var window := Window(GridOf(car.x), GridOf(car.z));
    FillCells(Prune(w2.road), window, CollapseTime(w2.level));
    WindowMembers(GridOf(car.x), GridOf(car.z));
    RoadConsistent(w2);
    LevelMonotone(if w.score == 0 then 0 else w.score - 1, w.score);
  }

  /**
   * The frame in which the run ends does not stop at gameOver: the rest of the
   * loop runs on the reset world, so afterwards the score is 1 (not 0), the
   * level 1, the game not running, the car at the start, and the road is the
   * initial road refilled to every cell of [-15, 15] x [-15, 15]. Further frames
   * change nothing until the countdown's final tick restores score 0.
   */
  lemma {:induction false} GameOverFrame(w: World, keys: Keys, later: Keys)
    requires EndsRun(w, keys)
    ensures var r := Frame(w, keys);
      r.score == 1 && r.level == 1 && !r.started && r.car == StartCar &&
      r.road == Fill(InitialRoad(MaxCollapseTime), Window(0, 0), MaxCollapseTime) &&
      (forall c :: HasCell(r.road, c) <==>
        -RenderDistance <= c.x <= RenderDistance && -RenderDistance <= c.z <= RenderDistance) &&
      Frame(r, later) == r &&
      StartRun(r).score == 0 && StartRun(r).level == 1 && StartRun(r).started
  {
    assert AfterVertical(AfterMove(w, keys)) == ResetWorld();
    ResetRoadRefilled();
    RefilledInitialRoad(MaxCollapseTime);
  }

  /** Updating and refilling the road right after a reset leaves the initial tiles as they are. */
  lemma ResetRoadRefilled()
    ensures AfterRoad(ResetWorld()).road == Fill(InitialRoad(MaxCollapseTime), Window(0, 0), MaxCollapseTime)
  {
    CollapseTimeEnds();
    InitialRoadShape(MaxCollapseTime);
    PruneIdle(InitialRoad(MaxCollapseTime));
  }

  /** The initial road refilled around cell (0, 0) occupies exactly [-15, 15] x [-15, 15]. */
  lemma RefilledInitialRoad(timer: int)
    ensures forall c :: HasCell(Fill(InitialRoad(timer), Window(0, 0), timer), c) <==>
      -RenderDistance <= c.x <= RenderDistance && -RenderDistance <= c.z <= RenderDistance
  {
    InitialRoadShape(timer);
    FillCells(InitialRoad(timer), Window(0, 0), timer);
    WindowMembers(0, 0);
  }

  /**
   * A car standing still on a solid tile neither moves nor sinks, and the run
   * goes on.
   */
  lemma {:induction false} IdleOnSolidGround(w: World, keys: Keys)
    requires Inv(w) && w.started
    requires MovementInput(keys) == Delta(0, 0)
    requires Supported(w.road, w.car.x, w.car.z)
    ensures Frame(w, keys).started && Frame(w, keys).car == w.car
    ensures Frame(w, keys).score == w.score + 1
  {
    var car := MoveCar(w.car, keys);
    assert car == w.car;
    MarkKeepsSupport(w.road, car.x, car.z, car.x, car.z);
    assert !EndsRun(w, keys);
    RunningFrame(w, keys);
  }
}
