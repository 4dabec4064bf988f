/**
 * Play: the game as the program runs it, on objects it updates in place. A
 * RoadSegment holds one tile's fields; a Game holds the session's variables,
 * the car's position and heading, and the list of live tiles. Every method is
 * proved to have the effect that the value model of the Session module gives
 * for the same step.
 */
module Play {
  import opened Difficulty
  import opened Platform
  import opened Grid
  import opened Vehicle
  import opened Session

  /** One tile of the road, updated once per frame by the game. */
  class RoadSegment {
    const cell: Cell
    var solid: bool
    var collapsing: bool
    var collapseTimer: int

    /** The tile's state as a value. */
    function Model(): Segment
      reads this
    {
      Segment(cell, solid, collapsing, collapseTimer)
    }

    /** The tile's world position, 2 units per cell (in steps of 0.2). */
    function PosX(): int
    {
      CellSize * cell.x
    }

    function PosZ(): int
    {
      CellSize * cell.z
    }

    /** A new tile in the given cell, solid and idle, waiting the given delay. */
    constructor (cell: Cell, timer: int)
      ensures Model() == Fresh(cell, timer)
    {
      this.cell := cell;
      solid := true;
      collapsing := false;
      collapseTimer := timer;
    }

    /** Marks the tile as collapsing; the timer keeps its value. */
    method StartCollapse()
      modifies this
      ensures Model() == Collapsed(old(Model()))
    {
      if !collapsing {
        collapsing := true;
      }
    }

    /**
     * One frame of the tile: a collapsing tile counts down, stops being solid at
     * FadeStart, and reports false when its timer has run out.
     */
    method Update() returns (alive: bool)
      modifies this
      ensures Model() == Stepped(old(Model()))
      ensures alive == Survives(old(Model()))
    {
      if collapsing {
        collapseTimer := collapseTimer - 1;
        if collapseTimer <= FadeStart {
          solid := false;
        }
        if collapseTimer <= 0 {
          return false;
        }
      }
      return true;
    }
  }

  /** The states of a list of tiles, in order. */
  ghost function ViewOf(segs: seq<RoadSegment>): (v: seq<Segment>)
    reads segs
    ensures |v| == |segs|
  {
    if segs == [] then [] else [segs[0].Model()] + ViewOf(segs[1..])
  }

  /** Entry i of the states is the state of tile i. */
  lemma {:induction false} ViewOfAt(segs: seq<RoadSegment>)
    ensures forall i :: 0 <= i < |segs| ==> ViewOf(segs)[i] == segs[i].Model()
  {
    if segs != [] {
      ViewOfAt(segs[1..]);
    }
  }

  /**
   * Tile i of the list. Distinct is stated over this function rather than over
   * segs[i] so that its quantifier is matched only on At terms, which keeps the
   * solver from instantiating it on every index of the list.
   */
  ghost function At(segs: seq<RoadSegment>, i: int): RoadSegment
    requires 0 <= i < |segs|
  {
    segs[i]
  }

  /** No tile object appears twice in the list. */
  ghost predicate Distinct(segs: seq<RoadSegment>)
  {
    forall i, j :: 0 <= i < j < |segs| ==> At(segs, i) != At(segs, j)
  }

  /** In a list of distinct tiles, tile i is none of the others. */
  lemma DistinctAt(segs: seq<RoadSegment>, i: int)
    requires Distinct(segs) && 0 <= i < |segs|
    ensures forall k :: 0 <= k < |segs| && k != i ==> segs[k] != segs[i]
  {
    forall k | 0 <= k < |segs| && k != i
      ensures segs[k] != segs[i]
    {
      if k < i {
        assert At(segs, k) != At(segs, i);
      } else {
        assert At(segs, i) != At(segs, k);
      }
    }
  }

  /** Tiles in distinct cells are distinct objects. */
  lemma DistinctObjects(segs: seq<RoadSegment>)
    requires DistinctCells(ViewOf(segs))
    ensures Distinct(segs)
  {
    var v := ViewOf(segs);
    ViewOfAt(segs);
    forall i, j | 0 <= i < j < |segs|
      ensures At(segs, i) != At(segs, j)
    {
      assert CellAt(v, i) != CellAt(v, j);
    }
  }

  /** The game: the program's global variables, the car, and the live tiles. */
  class Game {
    var score: nat
    var currentLevel: int
    var gameStarted: bool
    var carX: int
    var carY: int
    var carZ: int
    var heading: Heading
    var roadSegments: seq<RoadSegment>

    /** The whole game state as a value. */
    ghost function Snapshot(): World
      reads this, roadSegments
    {
      World(score, currentLevel, gameStarted, Car(carX, carY, carZ, heading), ViewOf(roadSegments))
    }

    /** The game's invariant between frames. */
    ghost predicate Valid()
      reads this, roadSegments
    {
      Inv(Snapshot())
    }

    /**
     * Start-up (createCar, createInitialRoad): the state is the same as after
     * a reset.
     */
    constructor ()
      ensures Valid() && Snapshot() == ResetWorld()
      ensures forall s :: s in roadSegments ==> fresh(s)
      ensures forall i :: 0 <= i < |roadSegments| ==> fresh(roadSegments[i])
    {
      score := 0;
      currentLevel := 1;
      gameStarted := false;
      carX, carY, carZ := 0, StartY, 0;
      heading := StartHeading;
      roadSegments := [];
      new;
      assert ViewOf(roadSegments) == [];
      CreateInitialRoad();
      assert ViewOf(roadSegments) == InitialRoad(CollapseTime(1));
      ResetState();
      assert forall i :: 0 <= i < |roadSegments| ==> roadSegments[i] in roadSegments;
    }

    /** createInitialRoad: appends a new tile for every cell of [-10, 10) x [-10, 10). */
    method CreateInitialRoad()
      modifies this`roadSegments
      ensures ViewOf(roadSegments) == old(ViewOf(roadSegments)) + InitialRoad(CollapseTime(currentLevel))
      ensures forall s :: s in roadSegments ==> s in old(roadSegments) || fresh(s)
    {
      var timer := CollapseTime(currentLevel);
      var gridSize := 2 * InitialHalf;
      var offset := gridSize / 2;
      ghost var V := ViewOf(roadSegments);
      var added: seq<RoadSegment> := [];
      var x := -offset;
      while x < offset
        modifies {}
        invariant -offset <= x <= offset
        invariant ViewOf(roadSegments) == V
        invariant ViewOf(added) == FreshRoad(Rows(-offset, x, -offset, offset), timer)
        invariant forall s :: s in added ==> fresh(s)
      {
        var row := NewRow(x, -offset, offset, timer);
        RowsStep(added, row, -offset, x, -offset, offset, timer);
        added := added + row;
        x := x + 1;
      }
      assert offset == InitialHalf && x == offset;
      ViewAppend(roadSegments, added);
      roadSegments := roadSegments + added;
    }

    /** The inner loop of createInitialRoad: new tiles for the cells (x, z0) .. (x, z1 - 1). */
    method NewRow(x: int, z0: int, z1: int, timer: int) returns (row: seq<RoadSegment>)
      requires z0 <= z1
      ensures ViewOf(row) == FreshRoad(Row(x, z0, z1), timer)
      ensures forall s :: s in row ==> fresh(s)
    {
      row := [];
      var z := z0;
      while z < z1
        invariant z0 <= z <= z1
        invariant ViewOf(row) == FreshRoad(Row(x, z0, z), timer)
        invariant forall s :: s in row ==> fresh(s)
      {
        var seg := new RoadSegment(Cell(x, z), timer);
        ViewSnoc(row, seg);
        FreshRoadSnoc(Row(x, z0, z), Cell(x, z), timer);
        RowSnoc(x, z0, z, z + 1);
        row := row + [seg];
        z := z + 1;
      }
    }

    /**
     * checkPlatformSupport: looks at every tile and answers whether some solid
     * one lies within the support radius of (x, z).
     */
    method CheckPlatformSupport(x: int, z: int) returns (hasSupport: bool)
      ensures hasSupport <==> Supported(ViewOf(roadSegments), x, z)
    {
      ghost var v := ViewOf(roadSegments);
      ViewOfAt(roadSegments);
      hasSupport := false;
      var i := 0;
      while i < |roadSegments|
        invariant 0 <= i <= |roadSegments|
        invariant hasSupport <==> exists k :: 0 <= k < i && v[k].solid && Within(v[k].cell, x, z, SupportRadius)
      {
        var segment := roadSegments[i];
        if segment.solid {
          if Within(segment.cell, x, z, SupportRadius) {
            hasSupport := true;
          }
        }
        i := i + 1;
      }
    }

    /**
     * The search of updateRoadSegments for a tile whose position lies in cell c;
     * it stops at the first one found.
     */
    method HasSegmentAt(c: Cell) returns (found: bool)
      ensures found <==> HasCell(ViewOf(roadSegments), c)
    {
      ghost var v := ViewOf(roadSegments);
      ViewOfAt(roadSegments);
      found := false;
      var i := 0;
      while i < |roadSegments| && !found
        invariant 0 <= i <= |roadSegments|
        invariant found ==> HasCell(v, c)
        invariant !found ==> forall k :: 0 <= k < i ==> v[k].cell != c
      {
        var seg := roadSegments[i];
        GridOfCellPosition(seg.cell.x);
        GridOfCellPosition(seg.cell.z);
        found := GridOf(seg.PosX()) == c.x && GridOf(seg.PosZ()) == c.z;
        i := i + 1;
      }
    }

    /** handlePlatformCollapse: starts the collapse of every tile near the car. */
    method HandlePlatformCollapse()
      requires Distinct(roadSegments)
      modifies roadSegments
      ensures ViewOf(roadSegments) == MarkCollapsing(old(ViewOf(roadSegments)), carX, carZ)
    {
      ghost var v := ViewOf(roadSegments);
      ViewOfAt(roadSegments);
      ghost var marked := MarkCollapsing(v, carX, carZ);
      var i := 0;
      while i < |roadSegments|
        invariant 0 <= i <= |roadSegments|
        invariant forall k :: 0 <= k < i ==> roadSegments[k].Model() == marked[k]
        invariant forall k :: i <= k < |roadSegments| ==> roadSegments[k].Model() == v[k]
      {
        var segment := roadSegments[i];
        DistinctAt(roadSegments, i);
        if Within(segment.cell, carX, carZ, CollapseRadius) {
          segment.StartCollapse();
        }
        i := i + 1;
      }
      ViewOfPointwise(roadSegments, marked);
    }

    /**
     * updateCarPosition: moves and clamps the car according to the keys, turns
     * it when it moved, then dooms the tiles around its new position.
     */
    method UpdateCarPosition(keys: Keys)
      requires Distinct(roadSegments)
      modifies this, roadSegments
      ensures roadSegments == old(roadSegments)
      ensures Snapshot() == AfterMove(old(Snapshot()), keys)
    {
      ghost var w := Snapshot();
      ghost var car := MoveCar(w.car, keys);
      var d := MovementInput(keys);
      var newX := carX + d.dx;
      var newZ := carZ - d.dz;
      newX := Clamp(newX, MinX, MaxX);
      newZ := Clamp(newZ, MinZ, MaxZ);
      carX, carZ := newX, newZ;
      if d.dx != 0 || d.dz != 0 {
        heading := Heading(d.dx, d.dz);
      }
      assert Car(carX, carY, carZ, heading) == car;
      assert ViewOf(roadSegments) == w.road;
      HandlePlatformCollapse();
    }

    /**
     * handleVerticalMovement: without support the car sinks one step, and below
     * the threshold the run is over.
     */
    method HandleVerticalMovement()
      modifies this
      ensures Snapshot() == AfterVertical(old(Snapshot()))
      ensures forall s :: s in roadSegments ==> s in old(roadSegments) || fresh(s)
    {
      var supported := CheckPlatformSupport(carX, carZ);
      if !supported {
        carY := carY + Gravity;
        if carY < FallThreshold {
          var _, _ := GameOver();
        }
      }
    }

    /**
     * gameOver: stops the run, reports the score (a tenth of the frame count)
     * and the level reached, and resets the game.
     */
    method GameOver() returns (shownScore: int, shownLevel: int)
      modifies this
      ensures shownScore == old(score) / 10 && shownLevel == old(currentLevel)
      ensures Snapshot() == ResetWorld()
      ensures forall s :: s in roadSegments ==> fresh(s)
    {
      gameStarted := false;
      shownScore, shownLevel := score / 10, currentLevel;
      ResetGame();
    }

    /**
     * resetGame: score 0, level 1, not running, every tile dropped, the car
     * back at the start, and a new initial road.
     */
    method ResetGame()
      modifies this
      ensures Snapshot() == ResetWorld()
      ensures forall s :: s in roadSegments ==> fresh(s)
    {
      score := 0;
      currentLevel := 1;
      gameStarted := false;
      while |roadSegments| > 0
        modifies this`roadSegments
      {
        roadSegments := roadSegments[..|roadSegments| - 1];
      }
      carX, carY, carZ := 0, StartY, 0;
      heading := StartHeading;
      CreateInitialRoad();
    }

    /**
     * The first half of updateRoadSegments: walks the list from the back,
     * updates every tile and splices out those whose update returned false.
     */
    method PruneSegments()
      requires Distinct(roadSegments)
      modifies this`roadSegments, roadSegments
      ensures ViewOf(roadSegments) == Prune(old(ViewOf(roadSegments)))
      ensures forall s :: s in roadSegments ==> s in old(roadSegments)
    {
      ghost var S0, V0 := roadSegments, ViewOf(roadSegments);
      ViewOfAt(S0);
      ghost var kept: seq<RoadSegment> := [];
      var i := |roadSegments| - 1;
      assert S0[..i + 1] == S0 && V0[i + 1..] == [];
      while i >= 0
        invariant PruneProgress(S0, V0, i, kept)
      {
        kept := PruneAt(S0, V0, i, kept);
        i := i - 1;
      }
      assert roadSegments == kept && V0[0..] == V0;
    }

    /**
     * Where the backwards loop of updateRoadSegments stands once it has visited
     * the tiles after index i (of the list S0 whose states were V0): the tiles
     * up to i are untouched and still listed, and after them come the visited
     * tiles still alive, in order, holding the pruned visited states.
     */
    ghost predicate PruneProgress(S0: seq<RoadSegment>, V0: seq<Segment>, i: int, kept: seq<RoadSegment>)
      reads this, S0, kept
    {
      -1 <= i < |S0| == |V0| &&
      roadSegments == S0[..i + 1] + kept &&
      (forall k :: 0 <= k <= i ==> S0[k].Model() == V0[k] && S0[k] !in kept) &&
      (forall s :: s in kept ==> s in S0) &&
      ViewOf(kept) == Prune(V0[i + 1..])
    }

    /** One visit of that loop: tile i is updated, and leaves the list if its timer ran out. */
    method PruneAt(ghost S0: seq<RoadSegment>, ghost V0: seq<Segment>, i: int, ghost kept: seq<RoadSegment>)
      returns (ghost kept': seq<RoadSegment>)
      requires Distinct(S0) && 0 <= i && PruneProgress(S0, V0, i, kept)
      modifies this`roadSegments, S0[i]
      ensures PruneProgress(S0, V0, i - 1, kept')
    {
      SpliceFacts(S0, kept, i);
      var segment := roadSegments[i];
      DistinctAt(S0, i);
      ghost var keptView := ViewOf(kept);
      var alive := segment.Update();
      assert ViewOf(kept) == keptView;
      assert forall k :: 0 <= k < i ==> S0[k].Model() == V0[k];
      PruneStep(segment, kept, V0, i, alive);
      if !alive {
        roadSegments := roadSegments[..i] + roadSegments[i + 1..];
        kept' := kept;
      } else {
        kept' := [segment] + kept;
      }
    }

    /**
     * The second half of updateRoadSegments: visits every cell within
     * RenderDistance of cell (gx, gz), x outer and z inner, and appends a new
     * tile to each that has none.
     */
    method FillWindow(gx: int, gz: int)
      modifies this`roadSegments
      ensures ViewOf(roadSegments) == Fill(old(ViewOf(roadSegments)), Window(gx, gz), CollapseTime(currentLevel))
      ensures forall s :: s in roadSegments ==> s in old(roadSegments) || fresh(s)
    {
      ghost var V := ViewOf(roadSegments);
      var timer := CollapseTime(currentLevel);
      var renderDistance := RenderDistance;
      var x := gx - renderDistance;
      while x <= gx + renderDistance
        invariant gx - renderDistance <= x <= gx + renderDistance + 1
        invariant ViewOf(roadSegments) ==
          Fill(V, Rows(gx - renderDistance, x, gz - renderDistance, gz + renderDistance + 1), timer)
        invariant forall s :: s in roadSegments ==> s in old(roadSegments) || fresh(s)
      {
        ghost var rows := Rows(gx - renderDistance, x, gz - renderDistance, gz + renderDistance + 1);
        FillRow(x, gz - renderDistance, gz + renderDistance + 1, timer);
        FillAppend(V, rows, Row(x, gz - renderDistance, gz + renderDistance + 1), timer);
        ghost var prev := x;
        x := x + 1;
        RowsSnoc(gx - renderDistance, prev, x, gz - renderDistance, gz + renderDistance + 1);
      }
      assert x == gx + renderDistance + 1;
    }

    /**
     * The inner loop of the second half of updateRoadSegments: visits the cells
     * (x, z0) .. (x, z1 - 1) in order and appends a new tile to each that has none.
     */
    method FillRow(x: int, z0: int, z1: int, timer: int)
      requires z0 <= z1
      modifies this`roadSegments
      ensures ViewOf(roadSegments) == Fill(old(ViewOf(roadSegments)), Row(x, z0, z1), timer)
      ensures forall s :: s in roadSegments ==> s in old(roadSegments) || fresh(s)
    {
      ghost var V := ViewOf(roadSegments);
      var z := z0;
      while z < z1
        invariant z0 <= z <= z1
        invariant ViewOf(roadSegments) == Fill(V, Row(x, z0, z), timer)
        invariant forall s :: s in roadSegments ==> s in old(roadSegments) || fresh(s)
      {
        ghost var done := Fill(V, Row(x, z0, z), timer);
        var present := HasSegmentAt(Cell(x, z));
        if !present {
          var seg := new RoadSegment(Cell(x, z), timer);
          assert ViewOf(roadSegments) == done;
          ViewSnoc(roadSegments, seg);
          roadSegments := roadSegments + [seg];
          assert ViewOf(roadSegments) == done + [Fresh(Cell(x, z), timer)];
        } else {
          assert HasCell(done, Cell(x, z));
        }
        assert ViewOf(roadSegments) == AddIfMissing(done, Cell(x, z), timer);
        FillSnoc(V, Row(x, z0, z), Cell(x, z), timer);
        ghost var prev := z;
        z := z + 1;
        RowSnoc(x, z0, prev, z);
      }
    }

    /**
     * updateRoadSegments: updates and prunes the tiles, then fills the window
     * around the car's grid cell.
     */
    method UpdateRoadSegments()
      requires Distinct(roadSegments)
      modifies this, roadSegments
      ensures Snapshot() == AfterRoad(old(Snapshot()))
      ensures forall s :: s in roadSegments ==> s in old(roadSegments) || fresh(s)
    {
      PruneSegments();
      var playerGridX := GridOf(carX);
      var playerGridZ := GridOf(carZ);
      FillWindow(playerGridX, playerGridZ);
    }

    /**
     * updateDifficulty: the level follows the score; the result tells whether
     * the level changed, which is when the game announces the new level.
     */
    method UpdateDifficulty() returns (levelUp: bool)
      modifies this`currentLevel
      ensures Snapshot() == AfterDifficulty(old(Snapshot()))
      ensures levelUp <==> old(currentLevel) != currentLevel
    {
      var newLevel := LevelFor(score);
      levelUp := newLevel != currentLevel;
      if levelUp {
        currentLevel := newLevel;
      }
    }

    /**
     * The first two steps of gameLoop, updateCarPosition and
     * handleVerticalMovement. Afterwards no tile object is listed twice, and
     * every listed tile is an old one or a new object.
     */
    method MoveAndFall(keys: Keys)
      requires Valid()
      modifies this, roadSegments
      ensures Snapshot() == AfterVertical(AfterMove(old(Snapshot()), keys))
      ensures Distinct(roadSegments)
      ensures forall s :: s in roadSegments ==> s in old(roadSegments) || fresh(s)
      ensures forall i :: 0 <= i < |roadSegments| ==> roadSegments[i] in old(roadSegments) || fresh(roadSegments[i])
    {
      ghost var w := Snapshot();
      DistinctObjects(roadSegments);
      UpdateCarPosition(keys);
      HandleVerticalMovement();
      MidFrameDistinct(w, keys);
      DistinctObjects(roadSegments);
      assert forall k :: 0 <= k < |roadSegments| ==> roadSegments[k] in roadSegments;
    }

    /** The score++ that ends gameLoop: one more point, and nothing else changes. */
    method CountFrame()
      modifies this`score
      ensures Snapshot() == old(Snapshot()).(score := old(score) + 1)
    {
      score := score + 1;
    }

    /**
     * gameLoop: one frame. Nothing happens unless the game is running; the steps
     * after a game over still run, on the reset game. A caller that plays another
     * frame after this one needs the last ensures index by index, which follows
     * from `forall i :: 0 <= i < |roadSegments| ==> roadSegments[i] in roadSegments`
     * (FinishCountdown does this).
     */
    method GameLoop(keys: Keys)
      requires Valid()
      modifies this, roadSegments
      ensures Valid()
      ensures Snapshot() == Frame(old(Snapshot()), keys)
      ensures forall s :: s in roadSegments ==> s in old(roadSegments) || fresh(s)
    {
      if !gameStarted {
        return;
      }
      ghost var w := Snapshot();
      MoveAndFall(keys);
      ghost var w2 := Snapshot();
      UpdateRoadSegments();
      ghost var w3 := Snapshot();
      var _ := UpdateDifficulty();
      ghost var w4 := Snapshot();
      CountFrame();
      FrameOfSteps(w, keys, w2, w3, w4);
    }

    /**
     * The countdown's final tick: the run starts with score 0 at level 1, and
     * the first frame is played at once.
     */
    method FinishCountdown(keys: Keys)
      requires Valid()
      modifies this, roadSegments
      ensures Valid()
      ensures Snapshot() == Frame(StartRun(old(Snapshot())), keys)
      ensures forall s :: s in roadSegments ==> s in old(roadSegments) || fresh(s)
      ensures forall i :: 0 <= i < |roadSegments| ==> roadSegments[i] in old(roadSegments) || fresh(roadSegments[i])
    {
      ghost var w := Snapshot();
      gameStarted := true;
      score := 0;
      currentLevel := 1;
      assert Snapshot() == StartRun(w);
      GameLoop(keys);
      assert forall i :: 0 <= i < |roadSegments| ==> roadSegments[i] in roadSegments;
    }

    /**
     * The countdown's final tick plays the first frame, and requestAnimationFrame
     * then plays the next one on the state that frame left.
     */
    method StartAndPlayTwoFrames(first: Keys, next: Keys)
      requires Valid()
      modifies this, roadSegments
      ensures Valid()
      ensures Snapshot() == Frame(Frame(StartRun(old(Snapshot())), first), next)
      ensures forall i :: 0 <= i < |roadSegments| ==> roadSegments[i] in old(roadSegments) || fresh(roadSegments[i])
    {
      FinishCountdown(first);
      GameLoop(next);
    }
  }

  /** Appending a tile appends its state. */
  lemma ViewSnoc(segs: seq<RoadSegment>, s: RoadSegment)
    ensures ViewOf(segs + [s]) == ViewOf(segs) + [s.Model()]
  {
    ViewOfAt(segs + [s]);
    ViewOfAt(segs);
  }

  /** The states of two lists of tiles, one after the other. */
  lemma ViewAppend(a: seq<RoadSegment>, b: seq<RoadSegment>)
    ensures ViewOf(a + b) == ViewOf(a) + ViewOf(b)
  {
    ViewOfAt(a + b);
    ViewOfAt(a);
    ViewOfAt(b);
  }

  /** New tiles for one more row of a rectangle. */
  lemma RowsStep(added: seq<RoadSegment>, row: seq<RoadSegment>, x0: int, x: int, z0: int, z1: int, timer: int)
    requires x0 <= x
    requires ViewOf(added) == FreshRoad(Rows(x0, x, z0, z1), timer)
    requires ViewOf(row) == FreshRoad(Row(x, z0, z1), timer)
    ensures ViewOf(added + row) == FreshRoad(Rows(x0, x + 1, z0, z1), timer)
  {
    ViewAppend(added, row);
    RowsSnoc(x0, x, x + 1, z0, z1);
    FreshRoadAppend(Rows(x0, x, z0, z1), Row(x, z0, z1), timer);
  }

  /** A running frame, given the world after each of its steps, and the invariant it keeps. */
  lemma FrameOfSteps(w: World, keys: Keys, w2: World, w3: World, w4: World)
    requires Inv(w) && w.started
    requires w2 == AfterVertical(AfterMove(w, keys)) && w3 == AfterRoad(w2) && w4 == AfterDifficulty(w3)
    ensures Frame(w, keys) == w4.(score := w4.score + 1) && Inv(Frame(w, keys))
  {
    FramePreservesInv(w, keys);
  }

  /** The list of a pruning step, split around tile i. */
  lemma SpliceFacts(S0: seq<RoadSegment>, kept: seq<RoadSegment>, i: int)
    requires 0 <= i < |S0|
    ensures var list := S0[..i + 1] + kept;
      list[i] == S0[i] && list[..i] == S0[..i] && list[i + 1..] == kept &&
      list == S0[..i] + ([S0[i]] + kept)
  {
    var list := S0[..i + 1] + kept;
    assert S0[..i + 1] == S0[..i] + [S0[i]];
    assert list[..i] == S0[..i];
    assert list[i + 1..] == kept;
  }

  /** Pruning one more tile, whose update gave the given state and verdict, from the front. */
  lemma PruneStep(segment: RoadSegment, kept: seq<RoadSegment>, v: seq<Segment>, i: int, alive: bool)
    requires 0 <= i < |v|
    requires ViewOf(kept) == Prune(v[i + 1..])
    requires segment.Model() == Stepped(v[i]) && alive == Survives(v[i])
    ensures ViewOf(if alive then [segment] + kept else kept) == Prune(v[i..])
  {
    PruneCons(v[i], v[i + 1..]);
    assert v[i..] == [v[i]] + v[i + 1..];
    assert ([segment] + kept)[1..] == kept;
  }

  /** New tiles for one more cell. */
  lemma FreshRoadSnoc(cells: seq<Cell>, c: Cell, timer: int)
    ensures FreshRoad(cells + [c], timer) == FreshRoad(cells, timer) + [Fresh(c, timer)]
  {
    assert (cells + [c])[..|cells|] == cells;
  }

  /** Tiles whose states are, one by one, the given states. */
  lemma ViewOfPointwise(segs: seq<RoadSegment>, v: seq<Segment>)
    requires |segs| == |v|
    requires forall k :: 0 <= k < |segs| ==> segs[k].Model() == v[k]
    ensures ViewOf(segs) == v
  {
    ViewOfAt(segs);
  }

}
