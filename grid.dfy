/**
 * Grid: the live road as a sequence of tiles, in the order the game keeps them,
 * with the list operations the game performs on it each frame: drop tiles whose
 * timer ran out, and create a tile in every cell near the car that has none.
 */
module Grid {
  import opened Platform

  /** Tiles are 2 world units wide; positions are kept in units of 0.2, so 10. */
  const CellSize: int := 10
  /** Cells filled around the car's cell in each direction. */
  const RenderDistance: int := 15
  /** Half the side of the initial 20 x 20 grid of cells. */
  const InitialHalf: int := 10

  /** The grid cell of a position: floor(p / CellSize). */
  function GridOf(p: int): (k: int)
    ensures CellSize * k <= p < CellSize * (k + 1)
  {
    p / CellSize
  }

  /** The grid cell of a tile's own position is the tile's cell. */
  lemma GridOfCellPosition(k: int)
    ensures GridOf(CellSize * k) == k
  {
  }

  /** Some tile of the road stands in cell c. */
  predicate HasCell(road: seq<Segment>, c: Cell)
  {
    exists i :: 0 <= i < |road| && road[i].cell == c
  }

  /**
   * The cell of the i-th tile of the road. DistinctCells is stated over this
   * function rather than over road[i].cell so that its quantifier is matched
   * only on CellAt terms, which keeps the solver from instantiating it on
   * every index of the road.
   */
  function CellAt(road: seq<Segment>, i: int): Cell
    requires 0 <= i < |road|
  {
    road[i].cell
  }

  /** No two tiles of the road share a cell. */
  predicate DistinctCells(road: seq<Segment>)
  {
    forall i, j :: 0 <= i < j < |road| ==> CellAt(road, i) != CellAt(road, j)
  }

  /** Every tile of the road is well formed. */
  predicate AllWellFormed(road: seq<Segment>)
  {
    forall i :: 0 <= i < |road| ==> WellFormed(road[i])
  }

  /** The cells (x, z0) .. (x, z1 - 1), in increasing z. */
  function Row(x: int, z0: int, z1: int): (cells: seq<Cell>)
    decreases z1 - z0
    ensures |cells| == if z0 <= z1 then z1 - z0 else 0
  {
    if z1 <= z0 then [] else Row(x, z0, z1 - 1) + [Cell(x, z1 - 1)]
  }

  /** A row holds exactly the cells (x, z) with z0 <= z < z1. */
  lemma {:induction false} RowMembers(x: int, z0: int, z1: int)
    ensures forall c :: c in Row(x, z0, z1) <==> c.x == x && z0 <= c.z < z1
    decreases z1 - z0
  {
    if z0 < z1 {
      RowMembers(x, z0, z1 - 1);
    }
  }

  /** Extending a row by one cell appends that cell. */
  lemma RowSnoc(x: int, z0: int, z: int, next: int)
    requires z0 <= z && next == z + 1
    ensures Row(x, z0, next) == Row(x, z0, z) + [Cell(x, z)]
  {
  }

  /** No cell appears twice in a sequence of cells. */
  predicate NoRepeats(cells: seq<Cell>)
  {
    forall i, j :: 0 <= i < j < |cells| ==> cells[i] != cells[j]
  }

  /** Two sequences without repeats and without a common cell make one without repeats. */
  lemma {:induction false} NoRepeatsAppend(a: seq<Cell>, b: seq<Cell>)
    requires NoRepeats(a) && NoRepeats(b)
    requires forall c :: c in a ==> c !in b
    ensures NoRepeats(a + b)
  {
    var ab := a + b;
    forall i, j | 0 <= i < j < |ab|
      ensures ab[i] != ab[j]
    {
      if j < |a| {
        assert ab[i] == a[i] && ab[j] == a[j];
      } else if i < |a| {
        assert ab[i] == a[i] && ab[j] == b[j - |a|];
        assert a[i] in a && b[j - |a|] in b;
      } else {
        assert ab[i] == b[i - |a|] && ab[j] == b[j - |a|];
      }
    }
  }

  /** A row visits each of its cells once. */
  lemma {:induction false} RowNoRepeats(x: int, z0: int, z1: int)
    ensures NoRepeats(Row(x, z0, z1))
    decreases z1 - z0
  {
    if z0 < z1 {
      RowNoRepeats(x, z0, z1 - 1);
      RowMembers(x, z0, z1 - 1);
      NoRepeatsAppend(Row(x, z0, z1 - 1), [Cell(x, z1 - 1)]);
    }
  }

  /**
   * The cells of the rectangle [x0, x1) x [z0, z1), in the order the game's nested
   * loops visit them: x in the outer loop, z in the inner one.
   */
  function Rows(x0: int, x1: int, z0: int, z1: int): (cells: seq<Cell>)
    decreases x1 - x0
  {
    if x1 <= x0 then [] else Rows(x0, x1 - 1, z0, z1) + Row(x1 - 1, z0, z1)
  }

  /** A rectangle holds exactly its cells. */
  lemma {:induction false} RowsMembers(x0: int, x1: int, z0: int, z1: int)
    ensures forall c :: c in Rows(x0, x1, z0, z1) <==> x0 <= c.x < x1 && z0 <= c.z < z1
    decreases x1 - x0
  {
    if x0 < x1 {
      RowsMembers(x0, x1 - 1, z0, z1);
      RowMembers(x1 - 1, z0, z1);
    }
  }

  /** Extending a rectangle by one column appends that column's row. */
  lemma RowsSnoc(x0: int, x: int, next: int, z0: int, z1: int)
    requires x0 <= x && next == x + 1
    ensures Rows(x0, next, z0, z1) == Rows(x0, x, z0, z1) + Row(x, z0, z1)
  {
  }

  /** A rectangle visits each of its cells once. */
  lemma {:induction false} RowsNoRepeats(x0: int, x1: int, z0: int, z1: int)
    ensures NoRepeats(Rows(x0, x1, z0, z1))
    decreases x1 - x0
  {
    if x0 < x1 {
      RowsNoRepeats(x0, x1 - 1, z0, z1);
      RowNoRepeats(x1 - 1, z0, z1);
      RowsMembers(x0, x1 - 1, z0, z1);
      RowMembers(x1 - 1, z0, z1);
      NoRepeatsAppend(Rows(x0, x1 - 1, z0, z1), Row(x1 - 1, z0, z1));
    }
  }

  /** The rectangle has (x1 - x0) (z1 - z0) cells. */
  lemma {:induction false} RowsLength(x0: int, x1: int, z0: int, z1: int)
    requires x0 <= x1 && z0 <= z1
    ensures |Rows(x0, x1, z0, z1)| == (x1 - x0) * (z1 - z0)
    decreases x1 - x0
  {
    if x0 < x1 {
      RowsLength(x0, x1 - 1, z0, z1);
      assert (x1 - x0) * (z1 - z0) == (x1 - 1 - x0) * (z1 - z0) + (z1 - z0);
    }
  }

  /** The (2 RenderDistance + 1)^2 cells within RenderDistance of cell (gx, gz). */
  function Window(gx: int, gz: int): seq<Cell>
  {
    Rows(gx - RenderDistance, gx + RenderDistance + 1, gz - RenderDistance, gz + RenderDistance + 1)
  }

  /** The window holds exactly the cells within RenderDistance of (gx, gz) on both axes. */
  lemma WindowMembers(gx: int, gz: int)
    ensures forall c :: c in Window(gx, gz) <==>
      gx - RenderDistance <= c.x <= gx + RenderDistance &&
      gz - RenderDistance <= c.z <= gz + RenderDistance
  {
    RowsMembers(gx - RenderDistance, gx + RenderDistance + 1, gz - RenderDistance, gz + RenderDistance + 1);
  }

  /** New tiles, one per cell, in the order of the cells. */
  function FreshRoad(cells: seq<Cell>, timer: int): (road: seq<Segment>)
    ensures |road| == |cells|
  {
    if cells == [] then [] else FreshRoad(cells[..|cells| - 1], timer) + [Fresh(cells[|cells| - 1], timer)]
  }

  /** Tile i of the new tiles is a new tile in cell i. */
  lemma {:induction false} FreshRoadAt(cells: seq<Cell>, timer: int)
    ensures forall i :: 0 <= i < |cells| ==> FreshRoad(cells, timer)[i] == Fresh(cells[i], timer)
  {
    if cells != [] {
      FreshRoadAt(cells[..|cells| - 1], timer);
    }
  }

  /** New tiles for two lists of cells, one after the other. */
  lemma {:induction false} FreshRoadAppend(a: seq<Cell>, b: seq<Cell>, timer: int)
    ensures FreshRoad(a + b, timer) == FreshRoad(a, timer) + FreshRoad(b, timer)
    decreases |b|
  {
    if b == [] {
      assert a + b == a;
    } else {
      var init := b[..|b| - 1];
      assert (a + b)[..|a + b| - 1] == a + init;
      FreshRoadAppend(a, init, timer);
    }
  }

  /** The tiles createInitialRoad makes: one for each cell of [-10, 10) x [-10, 10). */
  function InitialRoad(timer: int): seq<Segment>
  {
    FreshRoad(Rows(-InitialHalf, InitialHalf, -InitialHalf, InitialHalf), timer)
  }

  /**
   * The initial road has 400 tiles in 400 distinct cells, exactly the cells of
   * [-10, 10) x [-10, 10), all new, solid and idle.
   */
  lemma InitialRoadShape(timer: int)
    ensures |InitialRoad(timer)| == 4 * InitialHalf * InitialHalf
    ensures DistinctCells(InitialRoad(timer))
    ensures forall c :: HasCell(InitialRoad(timer), c) <==>
      -InitialHalf <= c.x < InitialHalf && -InitialHalf <= c.z < InitialHalf
    ensures forall i :: 0 <= i < |InitialRoad(timer)| ==> InitialRoad(timer)[i] == Fresh(InitialRoad(timer)[i].cell, timer)
  {
    var cells := Rows(-InitialHalf, InitialHalf, -InitialHalf, InitialHalf);
    RowsLength(-InitialHalf, InitialHalf, -InitialHalf, InitialHalf);
    RowsNoRepeats(-InitialHalf, InitialHalf, -InitialHalf, InitialHalf);
    RowsMembers(-InitialHalf, InitialHalf, -InitialHalf, InitialHalf);
    FreshRoadAt(cells, timer);
    var road := InitialRoad(timer);
    forall c
      ensures HasCell(road, c) <==> -InitialHalf <= c.x < InitialHalf && -InitialHalf <= c.z < InitialHalf
    {
      if HasCell(road, c) {
        var i :| 0 <= i < |road| && road[i].cell == c;
        assert cells[i] in cells;
      }
      if -InitialHalf <= c.x < InitialHalf && -InitialHalf <= c.z < InitialHalf {
        assert c in cells;
        var i :| 0 <= i < |cells| && cells[i] == c;
        assert road[i].cell == c;
      }
    }
  }

  /** A new tile that a timer of the given length makes well formed. */
  lemma FreshWellFormed(c: Cell, timer: int)
    requires Difficulty.MinCollapseTime <= timer <= Difficulty.MaxCollapseTime
    ensures WellFormed(Fresh(c, timer))
  {
  }

  // ---------------------------------------------------------------------------
  // Pruning: the reverse loop of updateRoadSegments that updates every tile and
  // splices out those whose update returned false.

  /**
   * Every tile updated once, keeping, in their original order, exactly those
   * whose update reports that they survive.
   */
  function Prune(road: seq<Segment>): (r: seq<Segment>)
    ensures |r| <= |road|
  {
    if road == [] then []
    else (if Survives(road[0]) then [Stepped(road[0])] else []) + Prune(road[1..])
  }

  /** Pruning a tile followed by a road handles the tile, then the road. */
  lemma PruneCons(s: Segment, road: seq<Segment>)
    ensures Prune([s] + road) == (if Survives(s) then [Stepped(s)] else []) + Prune(road)
  {
    assert ([s] + road)[1..] == road;
  }

  /**
   * Pruning works tile by tile: the survivors of a road made of two parts are
   * the survivors of the first part followed by those of the second, so
   * pruning never reorders tiles.
   */
  lemma {:induction false} PruneAppend(a: seq<Segment>, b: seq<Segment>)
    ensures Prune(a + b) == Prune(a) + Prune(b)
    decreases |a|
  {
    if a == [] {
      assert a + b == b;
    } else {
      var head := if Survives(a[0]) then [Stepped(a[0])] else [];
      assert a + b == [a[0]] + (a[1..] + b);
      assert a == [a[0]] + a[1..];
      PruneCons(a[0], a[1..] + b);
      PruneCons(a[0], a[1..]);
      PruneAppend(a[1..], b);
      assert head + (Prune(a[1..]) + Prune(b)) == (head + Prune(a[1..])) + Prune(b);
    }
  }

  /** The tiles after pruning are exactly the updated survivors of the road. */
  lemma {:induction false} PruneMembers(road: seq<Segment>)
    ensures forall s :: s in Prune(road) <==>
      exists i :: 0 <= i < |road| && Survives(road[i]) && s == Stepped(road[i])
  {
    if road != [] {
      PruneMembers(road[1..]);
      forall s | s in Prune(road)
        ensures exists i :: 0 <= i < |road| && Survives(road[i]) && s == Stepped(road[i])
      {
        if s !in Prune(road[1..]) {
          assert Survives(road[0]) && s == Stepped(road[0]);
        } else {
          var i :| 0 <= i < |road[1..]| && Survives(road[1..][i]) && s == Stepped(road[1..][i]);
          assert road[i + 1] == road[1..][i];
        }
      }
      forall s | exists i :: 0 <= i < |road| && Survives(road[i]) && s == Stepped(road[i])
        ensures s in Prune(road)
      {
        var i :| 0 <= i < |road| && Survives(road[i]) && s == Stepped(road[i]);
        if i > 0 {
          assert road[1..][i - 1] == road[i];
        }
      }
    }
  }

  /** A cell is occupied after pruning only if it was occupied before. */
  lemma {:induction false} PruneCells(road: seq<Segment>, c: Cell)
    requires HasCell(Prune(road), c)
    ensures HasCell(road, c)
  {
    var pruned := Prune(road);
    var k :| 0 <= k < |pruned| && pruned[k].cell == c;
    PruneMembers(road);
    assert pruned[k] in pruned;
    var i :| 0 <= i < |road| && Survives(road[i]) && pruned[k] == Stepped(road[i]);
  }

  /** Pruning keeps tiles in distinct cells and keeps them well formed. */
  lemma {:induction false} PruneInvariant(road: seq<Segment>)
    requires DistinctCells(road) && AllWellFormed(road)
    ensures DistinctCells(Prune(road)) && AllWellFormed(Prune(road))
  {
    if road != [] {
      var tail := road[1..];
      assert DistinctCells(tail) && AllWellFormed(tail) by {
        forall i, j | 0 <= i < j < |tail|
          ensures CellAt(tail, i) != CellAt(tail, j)
        {
          assert tail[i] == road[i + 1] && tail[j] == road[j + 1];
          assert CellAt(road, i + 1) != CellAt(road, j + 1);
        }
        forall i | 0 <= i < |tail|
          ensures WellFormed(tail[i])
        {
          assert tail[i] == road[i + 1];
        }
      }
      PruneInvariant(tail);
      if Survives(road[0]) {
        SteppedWellFormed(road[0]);
        var rest := Prune(tail);
        forall j | 0 <= j < |rest|
          ensures rest[j].cell != road[0].cell
        {
          assert HasCell(rest, rest[j].cell);
          PruneCells(tail, rest[j].cell);
          var i :| 0 <= i < |tail| && tail[i].cell == rest[j].cell;
          assert tail[i] == road[i + 1];
          assert CellAt(road, 0) != CellAt(road, i + 1);
        }
        var r := [Stepped(road[0])] + rest;
        assert Prune(road) == r;
        forall i, j | 0 <= i < j < |r|
          ensures CellAt(r, i) != CellAt(r, j)
        {
          if i == 0 {
            assert r[j] == rest[j - 1];
          } else {
            assert r[i] == rest[i - 1] && r[j] == rest[j - 1];
            assert CellAt(rest, i - 1) != CellAt(rest, j - 1);
          }
        }
        forall i | 0 <= i < |r|
          ensures WellFormed(r[i])
        {
          if i > 0 {
            assert r[i] == rest[i - 1];
          }
        }
      } else {
        assert Prune(road) == Prune(tail);
      }
    }
  }

  /** A road with no collapsing tile is left exactly as it is by pruning. */
  lemma {:induction false} PruneIdle(road: seq<Segment>)
    requires forall i :: 0 <= i < |road| ==> !road[i].collapsing
    ensures Prune(road) == road
  {
    if road != [] {
      assert forall i :: 0 <= i < |road[1..]| ==> !road[1..][i].collapsing by {
        forall i | 0 <= i < |road[1..]|
          ensures !road[1..][i].collapsing
        {
          assert road[1..][i] == road[i + 1];
        }
      }
      PruneIdle(road[1..]);
      assert road == [road[0]] + road[1..];
    }
  }

  // ---------------------------------------------------------------------------
  // Filling: the nested loops of updateRoadSegments that create a tile in every
  // cell of the window that has none.

  /** One step of the fill loops: create a tile at c unless one stands there. */
  function AddIfMissing(road: seq<Segment>, c: Cell, timer: int): (r: seq<Segment>)
    ensures HasCell(r, c)
    ensures r == road || r == road + [Fresh(c, timer)]
    ensures r != road <==> !HasCell(road, c)
  {
    if HasCell(road, c) then road
    else
      var r := road + [Fresh(c, timer)];
      assert r[|road|].cell == c;
      r
  }

  /** The road after visiting the given cells in order, one AddIfMissing step each. */
  function Fill(road: seq<Segment>, cells: seq<Cell>, timer: int): (r: seq<Segment>)
    decreases |cells|
    ensures |road| <= |r|
  {
    if cells == [] then road
    else AddIfMissing(Fill(road, cells[..|cells| - 1], timer), cells[|cells| - 1], timer)
  }

  /**
   * Filling keeps the old tiles, in place and unchanged, and everything it
   * appends is a new tile in one of the visited cells.
   */
  lemma {:induction false} FillShape(road: seq<Segment>, cells: seq<Cell>, timer: int)
    ensures var r := Fill(road, cells, timer);
      r[..|road|] == road &&
      forall k :: |road| <= k < |r| ==> r[k] == Fresh(r[k].cell, timer) && r[k].cell in cells
  {
    if cells != [] {
      var prefix := cells[..|cells| - 1];
      FillShape(road, prefix, timer);
      assert forall c :: c in prefix ==> c in cells;
    }
  }

  /** After filling, a cell is occupied exactly when it was before or was visited. */
  lemma {:induction false} FillCells(road: seq<Segment>, cells: seq<Cell>, timer: int)
    ensures forall c :: HasCell(Fill(road, cells, timer), c) <==> HasCell(road, c) || c in cells
  {
    if cells != [] {
      var prefix, last := cells[..|cells| - 1], cells[|cells| - 1];
      FillCells(road, prefix, timer);
      var before := Fill(road, prefix, timer);
      var after := Fill(road, cells, timer);
      assert cells == prefix + [last];
      forall c
        ensures HasCell(after, c) <==> HasCell(road, c) || c in cells
      {
        if !HasCell(before, last) {
          assert after == before + [Fresh(last, timer)];
          if HasCell(after, c) {
            var i :| 0 <= i < |after| && after[i].cell == c;
            if i < |before| {
              assert before[i] == after[i];
            }
          }
          if HasCell(before, c) {
            var i :| 0 <= i < |before| && before[i].cell == c;
            assert after[i] == before[i];
          }
          assert after[|before|].cell == last;
        }
      }
    }
  }

  /** Filling never puts a second tile in a cell. */
  lemma {:induction false} FillDistinct(road: seq<Segment>, cells: seq<Cell>, timer: int)
    requires DistinctCells(road)
    ensures DistinctCells(Fill(road, cells, timer))
  {
    if cells != [] {
      var prefix, last := cells[..|cells| - 1], cells[|cells| - 1];
      FillDistinct(road, prefix, timer);
      var before := Fill(road, prefix, timer);
      if !HasCell(before, last) {
        var after := before + [Fresh(last, timer)];
        forall i, j | 0 <= i < j < |after|
          ensures CellAt(after, i) != CellAt(after, j)
        {
          if j == |before| {
            assert after[i] == before[i];
          } else {
            assert after[i] == before[i] && after[j] == before[j];
            assert CellAt(before, i) != CellAt(before, j);
          }
        }
      }
    }
  }

  /** Filling with a proper delay keeps every tile well formed. */
  lemma FillWellFormed(road: seq<Segment>, cells: seq<Cell>, timer: int)
    requires AllWellFormed(road)
    requires Difficulty.MinCollapseTime <= timer <= Difficulty.MaxCollapseTime
    ensures AllWellFormed(Fill(road, cells, timer))
  {
    var r := Fill(road, cells, timer);
    FillShape(road, cells, timer);
    forall k | 0 <= k < |r|
      ensures WellFormed(r[k])
    {
      if k < |road| {
        assert r[k] == r[..|road|][k];
      }
    }
  }

  /** Visiting a + b is visiting a, then b. */
  lemma {:induction false} FillAppend(road: seq<Segment>, a: seq<Cell>, b: seq<Cell>, timer: int)
    ensures Fill(road, a + b, timer) == Fill(Fill(road, a, timer), b, timer)
    decreases |b|
  {
    if b != [] {
      var prefix := b[..|b| - 1];
      assert (a + b)[..|a + b| - 1] == a + prefix;
      FillAppend(road, a, prefix, timer);
    } else {
      assert a + b == a;
    }
  }

  /** Visiting one more cell is one more AddIfMissing step. */
  lemma FillSnoc(road: seq<Segment>, cells: seq<Cell>, c: Cell, timer: int)
    ensures Fill(road, cells + [c], timer) == AddIfMissing(Fill(road, cells, timer), c, timer)
  {
    assert (cells + [c])[..|cells|] == cells;
  }
}
