# The platform-collapse driving game, modelled in Dafny

The game is a browser game (`game.js`). A car drives over a grid of square
platforms ("tiles"). Driving near a tile starts its collapse. A collapsing
tile counts down a timer once per frame. At timer 300 it stops holding the car
up, and at timer 0 it is removed. New tiles are created in every empty cell
within 15 cells of the car. The level rises with the score, and a higher level
shortens the collapse delay. A car with no solid tile beneath it sinks. Once it
sinks below the fall threshold the run ends and the game resets.

This project models the per-frame simulation with the rendering and the
page removed. It has two layers:

- Value modules: `Difficulty`, `Platform`, `Grid`, `Vehicle` and `Session`.
  They describe each step of a frame as a function of datatypes.
  - `Session.Frame` is one whole frame.
  - `Session.Inv` is the invariant a frame keeps: a valid level that tracks the
    score, the car inside the bounds and between the fall threshold and the start
    height, and one well-formed tile per occupied cell.
- The `Play` module: the program as it runs, on objects updated in place.
  - `RoadSegment` is a class with the tile's `solid`, `collapsing` and
    `collapseTimer` fields.
  - `Game` is a class holding the program's global variables (`score`,
    `currentLevel`, `gameStarted`), the car's position and heading, and the
    `roadSegments` list.
  - Every method of `Game` and `RoadSegment` is proved to have exactly the effect
    the value layer gives for the same step. `Game.GameLoop` is therefore proved
    to perform `Session.Frame` and to keep `Session.Inv`.

Units: positions are integers counting steps of 0.2 world units, the car's
speed. This makes every constant of the game exact:

| quantity | value in the game | value in the model |
|---|---|---|
| speed | 0.2 | 1 |
| gravity | -0.2 | -1 |
| bounds | ±50 | ±250 |
| fall threshold | -5 | -25 |
| tile width | 2 | 10 |
| support radius | 2 | 10 |
| collapse radius | 4 | 20 |
| start height | 1 | 5 |

Distances are compared as squares, so no square root is needed.

A tile lives in an integer grid cell `(x, z)`, and its position is
`(10 x, 10 z)` in model units. Flooring the position over the tile width gives
the cell back exactly (`Grid.GridOfCellPosition`).

The collapse delay is `floor(900 - 850 * ((level - 1) / 49)^2)`, never below 50.
The model computes it exactly in integers, as a quotient by 49² = 2401, and
`Difficulty.CollapseTimeFormula` proves that quotient equal to the floor of the
real formula.

Behaviour of the code that the model keeps as written:

- The comment at game.js:329 says a tile stops being solid when its timer
  reaches 0. The code at game.js:330-332 does it at a timer of 300, and the
  model follows the code (`Platform.Stepped`, `Platform.SolidUntilFading`).
- gameOver runs inside handleVerticalMovement, and the frame then goes on.
  - The rest of `gameLoop` runs on the reset game: road update, difficulty
    update, and `score++`.
  - So after a game over the score is 1, not 0, until the countdown's final tick
    sets it to 0 (`Session.GameOverFrame`).
- handlePlatformCollapse dooms every tile within the collapse radius, solid or
  not. It does not restrict itself to solid ones.
- Leaving the bounds does not end a run: the position is clamped to the bound
  it passed (`Vehicle.MoveCar`).

## Model

| member | source | states |
|---|---|---|
| Difficulty.LevelFor | game.js:46-49 | The level is in [1, 50]. Below 50, the score lies in [1500 (level - 1), 1500 level). The level is 50 exactly when the score is at least 1500 · 49. |
| Difficulty.LevelMonotone | game.js:47 | A higher score never gives a lower level. |
| Difficulty.FirstLevelUp | game.js:47 | Score 1499 is level 1 and score 1500 is level 2. |
| Difficulty.CollapseTime | game.js:28-43 | The collapse delay of any level lies in [50, 900]. |
| Difficulty.CollapseTimeFormula | game.js:36-40 | For every level from 1 to 50 the integer delay is the floor of the real value 900 - 850 ((level - 1) / 49)^2. |
| Difficulty.CollapseTimeEnds | game.js:28-43 | Level 1 waits 900 frames; level 50 waits 50. |
| Difficulty.CollapseTimeMonotone | game.js:36-42 | A higher level never waits longer. |
| Platform.Collapsed | game.js:293-297 | startCollapse leaves the tile collapsing. Its cell, solidity and timer are unchanged, and well-formedness is kept. |
| Platform.CollapseIdempotent | game.js:293-297 | Starting a collapse twice is the same as once. |
| Platform.Stepped | game.js:299-332 | An update leaves an idle tile untouched. A collapsing tile loses exactly one frame of timer, and is solid afterwards iff it was solid and the new timer is above 300. Neither solidity nor the collapsing flag comes back. |
| Platform.Survives | game.js:329-339 | update returns false exactly when the tile was collapsing and its new timer is 0 or below. |
| Platform.SteppedWellFormed | game.js:299-340 | A well-formed tile that survives an update is still well formed. |
| Platform.SolidUntilFading | game.js:307-332 | A solid collapsing tile stays solid after an update exactly when the update leaves it in the warning phase (timer above 300). |
| Platform.RunCollapsing | game.js:299-332 | After n updates a collapsing tile has lost exactly n frames. It is still collapsing, and after at least one update it is solid iff it started solid and timer - n > 300. |
| Platform.RunIdle | game.js:299-340 | Updates never change an idle tile, and never remove it. |
| Platform.RemovedWhenTimerRunsOut | game.js:334-337 | A collapsing tile with timer T survives its first T - 1 updates and is removed by the T-th. |
| Platform.Fresh | game.js:283-285 | A new tile: solid, not collapsing, timer at the given delay. Grid.FreshWellFormed states that it is well formed for any delay in [50, 900], and Play.RoadSegment.constructor is proved to build it. |
| Grid.GridOf | game.js:353-354 | The cell k of a position p is the one with 10 k <= p < 10 (k + 1), so it is the floor of p over the tile width, also for negative p. |
| Grid.GridOfCellPosition | game.js:359-361 | The grid cell computed from a tile's position is the tile's own cell. |
| Grid.InitialRoad | game.js:242-251 | The tiles createInitialRoad makes, one per visited cell in the loops' order. Grid.InitialRoadShape states their number, cells and states. |
| Grid.RowsMembers | game.js:246-250 | The cells the two nested loops visit are exactly those of the rectangle. |
| Grid.RowsNoRepeats | game.js:246-250 | The nested loops visit no cell twice. |
| Grid.RowsLength | game.js:246-250 | The nested loops visit (x1 - x0)(z1 - z0) cells. |
| Grid.FreshRoadAt | game.js:248 | Tile i created by the loops is a new tile in cell i. |
| Grid.InitialRoadShape | game.js:242-251 | createInitialRoad makes 400 tiles in 400 distinct cells. The cells are exactly those of [-10, 10) x [-10, 10), and every tile is new, solid and idle. |
| Grid.FreshWellFormed | game.js:283-285 | A new tile with a delay in [50, 900] is well formed. |
| Grid.WindowMembers | game.js:357-358 | The fill loops visit exactly the cells within 15 of the car's cell on both axes. |
| Grid.Prune | game.js:346-350 | Pruning never lengthens the road. Grid.PruneMembers, Grid.PruneAppend, Grid.PruneInvariant and Grid.PruneIdle state which tiles it keeps, in which order and in which states. |
| Grid.PruneAppend | game.js:346-350 | Pruning a road in two parts gives the survivors of the first part followed by those of the second, so the relative order is kept. |
| Grid.PruneMembers | game.js:346-350 | The tiles left after pruning are exactly the updated tiles whose update returned true. |
| Grid.PruneCells | game.js:346-350 | Pruning occupies no new cell. |
| Grid.PruneInvariant | game.js:346-350 | Pruning keeps cells distinct and tiles well formed. |
| Grid.PruneIdle | game.js:346-350 | A road with no collapsing tile is left exactly as it is by pruning. |
| Grid.AddIfMissing | game.js:359-365 | Afterwards the cell is occupied. The road is unchanged exactly when the cell was occupied already, and otherwise it gains one new tile in that cell at its end. |
| Grid.Fill | game.js:357-366 | Filling never shortens the road. Grid.FillShape, Grid.FillCells and Grid.FillDistinct state what it appends and which cells are occupied afterwards. |
| Grid.FillShape | game.js:357-366 | Filling keeps the old tiles in place and unchanged. Every tile it appends is new and lies in a visited cell. |
| Grid.FillCells | game.js:357-366 | After filling, a cell is occupied exactly when it was occupied before or was visited. |
| Grid.FillDistinct | game.js:359-363 | Filling never puts a second tile in a cell. |
| Grid.FillWellFormed | game.js:357-366 | Filling with a delay in [50, 900] keeps every tile well formed. |
| Grid.FillAppend | game.js:357-366 | Visiting a + b is visiting a, then b. |
| Vehicle.MovementInput | game.js:118-128 | Each axis is -0.2, 0 or 0.2. Down wins over up and left wins over right, and each case is stated as an iff on the held keys. |
| Vehicle.Clamp | game.js:147-148 | The result lies in [lo, hi]. It is the value itself when inside, and the bound it passed otherwise. |
| Vehicle.MoveCar | game.js:138-157 | The new x is the old x plus the requested step, clamped to [-50, 50], and likewise z minus its step. So the car stops exactly at a bound it would pass, and moves by at most one step per axis. Its height is unchanged, and the heading is set to the requested direction exactly when a move is requested, and is kept otherwise. |
| Vehicle.MarkCollapsing | game.js:185-200 | Every tile closer than 4 is collapsing afterwards. Every other tile is unchanged, and so are the road's length, order, cells, solidity and timers. |
| Vehicle.Supported | game.js:164-182 | Some solid tile lies closer than 2. Play.Game.CheckPlatformSupport is proved to compute it, and Vehicle.MarkKeepsSupport shows that dooming tiles does not change it. |
| Vehicle.MarkKeepsSupport | game.js:164-200 | Dooming tiles never changes whether any position is supported. |
| Vehicle.MarkInvariant | game.js:185-200 | Dooming tiles keeps the cells distinct, the tiles well formed, and the occupied cells the same. |
| Vehicle.SupportersCollapse | game.js:166-196 | A tile that holds the car up is always doomed by it. |
| Session.ResetWorld | game.js:440-457 | The world after resetGame. Session.ResetState states its score, level, flag, car and road, and that it satisfies the invariant. |
| Session.StartRun | game.js:485-487 | The run is started with score 0 and level 1, and the car and road are kept. Started from a consistent world, the invariant holds. |
| Session.AfterMove | game.js:138-161 | updateCarPosition with its call of handlePlatformCollapse. Session.MoveEffect states its effect. |
| Session.MoveEffect | game.js:138-200 | The car moves as Vehicle.MoveCar says. Every tile within 4 of its new position becomes Platform.Collapsed of itself and every other tile is unchanged, in the same cells and order. Score, level and running flag are unchanged. |
| Session.AfterVertical | game.js:203-211 | A supported car leaves the world unchanged. An unsupported car sinks by exactly one step and nothing else changes, unless that takes it below -5, in which case the world is reset to Session.ResetWorld. |
| Session.AfterRoad | game.js:344-367 | updateRoadSegments: prune, then fill the window around the car's cell. Session.RoadEffect states its effect. |
| Session.RoadEffect | game.js:344-367 | Afterwards every cell within 15 of the car's cell on both axes holds a tile, and every tile that survived pruning is still there. Score, level, running flag and car are unchanged. |
| Session.AfterDifficulty | game.js:46-49 | Only the level changes, to the level of the current score, which is in [1, 50]. |
| Session.Frame | game.js:415-430 | One call of gameLoop. Session.FrameOutcome, Session.StoppedFrame, Session.RunningFrame, Session.GameOverFrame and Session.FramePreservesInv state its effect. |
| Session.FrameOutcome | game.js:415-425 | After a frame the game is running exactly when it was running and the frame did not end the run. A running frame leaves score 1 if it ended the run and one more point otherwise. |
| Session.ResetState | game.js:440-457 | After a reset: score 0, level 1, not running, car at (0, 1, 0). The road has 400 tiles in exactly the distinct cells of [-10, 10) x [-10, 10), all new with the 900-frame delay. The invariant holds. |
| Session.MoveConsistent | game.js:138-161 | Moving the car keeps the world consistent. |
| Session.VerticalConsistent | game.js:203-211 | Gravity, and a reset if it happens, keep the world consistent. |
| Session.RoadConsistent | game.js:344-367 | Updating and refilling the road keeps the world consistent. |
| Session.MidFrameDistinct | game.js:418-419 | After moving and gravity no cell holds two tiles. |
| Session.FramePreservesInv | game.js:415-430 | Every frame keeps the invariant. |
| Session.EndsRunExactly | game.js:203-211 | A frame ends the run exactly when the game is running, no solid tile supports the car at its new position, and one more step of gravity takes it below -5. |
| Session.StoppedFrame | game.js:416 | A frame of a game that is not running changes nothing. |
| Session.RunningFrame | game.js:415-430 | A frame that does not end the run has these effects. The score goes up by 1. The level becomes the old score's level and never drops. The car is moved as MoveCar says, and sinks by exactly one step iff no solid tile supports it. Every cell within 15 of its cell is occupied, and no cell twice. |
| Session.GameOverFrame | game.js:415-470 | The frame that ends the run leaves score 1, level 1, the game stopped, and the car at the start. The road is the initial road refilled to exactly [-15, 15] x [-15, 15]. Further frames change nothing, and the countdown's final tick gives score 0 and level 1. |
| Session.ResetRoadRefilled | game.js:344-367 | Updating the road right after a reset keeps all initial tiles as they are, and only adds new ones. |
| Session.RefilledInitialRoad | game.js:357-366 | The initial road refilled around cell (0, 0) occupies exactly [-15, 15] x [-15, 15]. |
| Session.IdleOnSolidGround | game.js:138-211 | A car that is asked for no movement and stands on a solid tile neither moves nor sinks, and the run goes on. |
| Play.RoadSegment.constructor | game.js:283-285 | A new tile is solid and idle and waits the given delay. |
| Play.RoadSegment.StartCollapse | game.js:293-297 | The tile's new state is Platform.Collapsed of its old state. |
| Play.RoadSegment.Update | game.js:299-340 | The tile's new state is Platform.Stepped of its old state, and the result is Platform.Survives of the old state. |
| Play.Game.constructor | game.js:497-498 | Start-up gives the same state as a reset, and the invariant holds. |
| Play.Game.CreateInitialRoad | game.js:242-251 | The tiles' states are the old ones followed by the initial road at the current level's delay, and every added tile is a new object. |
| Play.Game.NewRow | game.js:247-249 | The inner loop creates new tiles for cells (x, z0) .. (x, z1 - 1), in order. |
| Play.Game.CheckPlatformSupport | game.js:164-182 | The result is true iff some solid tile lies closer than 2 (Vehicle.Supported). |
| Play.Game.HasSegmentAt | game.js:359-362 | The result is true iff some tile's position lies in the given cell. |
| Play.Game.HandlePlatformCollapse | game.js:185-200 | The tiles' new states are Vehicle.MarkCollapsing of the old ones, around the car. |
| Play.Game.UpdateCarPosition | game.js:138-161 | The new game state is Session.AfterMove of the old one. The list of tiles is the same list. |
| Play.Game.HandleVerticalMovement | game.js:203-211 | The new game state is Session.AfterVertical of the old one. |
| Play.Game.GameOver | game.js:466-470 | The game reports a tenth of the score and the level reached, and its new state is the reset state. |
| Play.Game.ResetGame | game.js:440-457 | The new state is Session.ResetWorld. All old tiles are dropped and the new ones are new objects. |
| Play.Game.PruneSegments | game.js:346-350 | The tiles' new states are Grid.Prune of the old ones. No tile object is added. |
| Play.Game.PruneAt | game.js:347-349 | One visit of the reverse loop updates tile i and splices it out if update returned false. It keeps the loop's progress predicate. |
| Play.Game.FillWindow | game.js:353-366 | The tiles' new states are Grid.Fill of the old ones over the window around (gx, gz). |
| Play.Game.FillRow | game.js:358-365 | The tiles' new states are Grid.Fill of the old ones over the cells (x, z0) .. (x, z1 - 1). |
| Play.Game.UpdateRoadSegments | game.js:344-367 | The new game state is Session.AfterRoad of the old one. |
| Play.Game.UpdateDifficulty | game.js:46-64 | The new game state is Session.AfterDifficulty of the old one. The result (show the level banner) is true iff the level changed. |
| Play.Game.MoveAndFall | game.js:418-419 | The first two steps of gameLoop: the new game state is Session.AfterVertical of Session.AfterMove of the old one. No tile object is listed twice afterwards, and every listed tile is an old tile or a new object. |
| Play.Game.CountFrame | game.js:424-425 | score++: one more point, and nothing else in the game state changes. |
| Play.Game.GameLoop | game.js:415-430 | The new game state is Session.Frame of the old one, and the invariant is kept. |
| Play.Game.FinishCountdown | game.js:484-488 | The countdown's last tick starts the run with score 0 and level 1 and plays one frame: the new state is Session.Frame of Session.StartRun of the old one. The invariant holds afterwards, and every listed tile is an old tile or a new object. |
| Play.Game.StartAndPlayTwoFrames | game.js:485-488 | The countdown's last tick plays the first frame, and the frame requestAnimationFrame schedules (game.js:429) then runs on the state it left. The new state is two Session.Frame steps after Session.StartRun, the invariant holds, and every listed tile is old or new. |

## Left out

- Rendering is not modelled. This covers the Three.js scene, the car and tile
  meshes, materials, lights and the boundary walls (game.js:1-15, 73-115,
  255-282, 370-412), as well as `scene.remove` on removal and reset.
- updateCamera (game.js:214-229) is not modelled. It only smooths the camera
  and changes no game state.
- The tile's colour, opacity and sinking mesh height during a collapse
  (game.js:303-327) are not modelled. They are cosmetic floating-point
  interpolation. `Platform.PhaseOf` names the two phases they distinguish.
- The car's rotation `atan2(dx, -dz)` (game.js:154-157) is not computed, because
  it is transcendental. The model keeps the request it would be computed from
  (`Vehicle.Heading`). The heading is set to the requested direction exactly
  when a move is requested, and is kept otherwise.
- Key listeners (game.js:232-234) are not modelled. They become the key map
  passed to each frame.
- `requestAnimationFrame` (game.js:429) is not modelled. Each call of
  `Play.Game.GameLoop` is one frame.
- Page output is not modelled: the level banner and its `setTimeout`
  (game.js:51-62), the score text (game.js:426, 460), the alert (game.js:468)
  and the resize handler (game.js:433-437).
  - `UpdateDifficulty` returns whether the banner would be shown.
  - `GameOver` returns the score and level the alert reports.
- The countdown's timing (`setInterval`, game.js:472-491) is not modelled. Its
  effect on the game is the final tick, `Play.Game.FinishCountdown`. The
  earlier ticks change only the page.
  - The model also has no stale countdown callback firing after a second reset.
- Floating point is not modelled. The game adds 0.2 in binary floating point,
  which is inexact. The model uses exact multiples of 0.2, so the program can
  round differently wherever a comparison is met exactly on the 0.2 grid:
  - at the bounds and at cell borders;
  - at the support radius 2 and the collapse radius 4 (tile offsets of (2, 0),
    (1.2, 1.6) or (2.4, 3.2) lie at exactly those distances);
  - at the fall threshold. A car falling from height 1 without support reaches
    -5.000000000000002 after 30 frames in floating point, which is below -5, so
    the program ends the run on the 30th unsupported frame. In the model the 30th
    frame reaches exactly -5, which is not below it, and the run ends on the 31st.
- Play.Game.PruneAt: its contract only keeps a progress predicate of the
  reverse loop, rather than stating the full new state. The whole loop's
  effect is stated by `Play.Game.PruneSegments`.
