/**
 * Vehicle: the car's movement from the held keys, clamped to the game bounds,
 * the tiles it dooms by driving near them, and whether a solid tile holds it up.
 *
 * Positions are integers counting steps of 0.2 world units (the car's speed),
 * so every constant of the game is exact: speed 1, gravity -1, bounds +-250,
 * fall threshold -25, tile width 10, support radius 10, collapse radius 20.
 */
module Vehicle {
  import opened Platform
  import opened Grid

  /** Distance the car moves per frame along each axis (0.2). */
  const Speed: int := 1
  /** Change of height per frame without support (-0.2). */
  const Gravity: int := -1
  /** Height below which the run is over (-5). */
  const FallThreshold: int := -25
  /** The game bounds, +-50 on both horizontal axes. */
  const MinX: int := -250
  const MaxX: int := 250
  const MinZ: int := -250
  const MaxZ: int := 250
  /** Height of the car at the start of a run (1). */
  const StartY: int := 5
  /** A solid tile closer than this (2) holds the car up. */
  const SupportRadius: int := 10
  /** Every tile closer than this (4) starts collapsing. */
  const CollapseRadius: int := 20

  /** Key state as the key listeners leave it: key name to held or released. */
  type Keys = map<string, bool>

  /** A key counts as held only when the listeners recorded it as pressed. */
  predicate Held(keys: Keys, name: string)
  {
    name in keys && keys[name]
  }

  predicate UpHeld(keys: Keys)    { Held(keys, "w") || Held(keys, "ArrowUp") }
  predicate DownHeld(keys: Keys)  { Held(keys, "s") || Held(keys, "ArrowDown") }
  predicate RightHeld(keys: Keys) { Held(keys, "d") || Held(keys, "ArrowRight") }
  predicate LeftHeld(keys: Keys)  { Held(keys, "a") || Held(keys, "ArrowLeft") }

  /** A movement request along the two horizontal axes. */
  datatype Delta = Delta(dx: int, dz: int)

  /**
   * processMovementInput: the keys are looked at in the order up, down, right,
   * left, each overwriting the axis it sets, so down wins over up and left
   * wins over right when both of a pair are held.
   */
  function MovementInput(keys: Keys): (d: Delta)
    ensures d.dz == Speed <==> DownHeld(keys)
    ensures d.dz == -Speed <==> UpHeld(keys) && !DownHeld(keys)
    ensures d.dz == 0 <==> !UpHeld(keys) && !DownHeld(keys)
    ensures d.dx == Speed <==> LeftHeld(keys)
    ensures d.dx == -Speed <==> RightHeld(keys) && !LeftHeld(keys)
    ensures d.dx == 0 <==> !RightHeld(keys) && !LeftHeld(keys)
  {
    var dzUp := if UpHeld(keys) then -Speed else 0;
    var dz := if DownHeld(keys) then Speed else dzUp;
    var dxRight := if RightHeld(keys) then -Speed else 0;
    var dx := if LeftHeld(keys) then Speed else dxRight;
    Delta(dx, dz)
  }

  /** max(lo, min(hi, v)): v when it lies in [lo, hi], else the bound it passed. */
  function Clamp(v: int, lo: int, hi: int): (r: int)
    requires lo <= hi
    ensures lo <= r <= hi
    ensures lo <= v <= hi ==> r == v
    ensures v < lo ==> r == lo
    ensures hi < v ==> r == hi
  {
    var below := if hi < v then hi else v;
    if lo > below then lo else below
  }

  /**
   * The car's heading, kept as the last non-zero movement request: the rotation
   * the game shows is atan2(dx, -dz) of it. Heading(0, -1) is rotation 0.
   */
  datatype Heading = Heading(dx: int, dz: int)

  const StartHeading: Heading := Heading(0, -Speed)

  datatype Car = Car(x: int, y: int, z: int, heading: Heading)

  const StartCar: Car := Car(0, StartY, 0, StartHeading)

  predicate InBounds(car: Car)
  {
    MinX <= car.x <= MaxX && MinZ <= car.z <= MaxZ
  }

  /**
   * The position part of updateCarPosition: x moves by dx, z by -dz, both clamped
   * to the bounds; y is untouched; the heading is set to the requested direction
   * exactly when a move is requested, and is kept otherwise.
   */
  function MoveCar(car: Car, keys: Keys): (r: Car)
    ensures InBounds(r) && r.y == car.y
    ensures var d := MovementInput(keys);
      (d.dx != 0 || d.dz != 0 ==> r.heading == Heading(d.dx, d.dz)) &&
      (d.dx == 0 && d.dz == 0 ==> r.heading == car.heading)
    ensures var d := MovementInput(keys);
      (MinX <= car.x + d.dx <= MaxX ==> r.x == car.x + d.dx) &&
      (MinZ <= car.z - d.dz <= MaxZ ==> r.z == car.z - d.dz)
    ensures InBounds(car) ==> car.x - Speed <= r.x <= car.x + Speed && car.z - Speed <= r.z <= car.z + Speed
    ensures var d := MovementInput(keys);
      r.x == Clamp(car.x + d.dx, MinX, MaxX) && r.z == Clamp(car.z - d.dz, MinZ, MaxZ)
  {
    var d := MovementInput(keys);
    var x := Clamp(car.x + d.dx, MinX, MaxX);
    var z := Clamp(car.z - d.dz, MinZ, MaxZ);
    var heading := if d.dx != 0 || d.dz != 0 then Heading(d.dx, d.dz) else car.heading;
    Car(x, car.y, z, heading)
  }

  /** Squared horizontal distance from (x, z) to the centre of cell c. */
  function DistanceSq(c: Cell, x: int, z: int): int
  {
    var ex := x - CellSize * c.x;
    var ez := z - CellSize * c.z;
    ex * ex + ez * ez
  }

  /** Within the given radius of (x, z), compared without a square root. */
  predicate Within(c: Cell, x: int, z: int, radius: int)
  {
    DistanceSq(c, x, z) < radius * radius
  }

  /** checkPlatformSupport: some solid tile lies within the support radius. */
  predicate Supported(road: seq<Segment>, x: int, z: int)
  {
    exists i :: 0 <= i < |road| && road[i].solid && Within(road[i].cell, x, z, SupportRadius)
  }

  /**
   * handlePlatformCollapse: every tile within the collapse radius of (x, z) is
   * collapsing afterwards, solid or not; every other tile, and the length and
   * order of the road, are unchanged; no timer or solidity changes.
   */
  function MarkCollapsing(road: seq<Segment>, x: int, z: int): (r: seq<Segment>)
    ensures |r| == |road|
    ensures forall i :: 0 <= i < |road| ==>
      r[i].cell == road[i].cell && r[i].solid == road[i].solid && r[i].timer == road[i].timer
    ensures forall i :: 0 <= i < |road| && Within(road[i].cell, x, z, CollapseRadius) ==> r[i].collapsing
    ensures forall i :: 0 <= i < |road| && !Within(road[i].cell, x, z, CollapseRadius) ==> r[i] == road[i]
  {
    seq(|road|, i requires 0 <= i < |road| =>
      if Within(road[i].cell, x, z, CollapseRadius) then Collapsed(road[i]) else road[i])
  }

  /** Marking tiles as collapsing changes no tile's solidity, so support is unchanged. */
  lemma MarkKeepsSupport(road: seq<Segment>, x: int, z: int, a: int, b: int)
    ensures Supported(MarkCollapsing(road, x, z), a, b) <==> Supported(road, a, b)
  {
    var r := MarkCollapsing(road, x, z);
    if Supported(road, a, b) {
      var i :| 0 <= i < |road| && road[i].solid && Within(road[i].cell, a, b, SupportRadius);
      assert r[i].solid && r[i].cell == road[i].cell;
    }
    if Supported(r, a, b) {
      var i :| 0 <= i < |r| && r[i].solid && Within(r[i].cell, a, b, SupportRadius);
      assert road[i].solid && r[i].cell == road[i].cell;
    }
  }

  /** Marking tiles as collapsing keeps the cells occupied and the tiles well formed. */
  lemma MarkInvariant(road: seq<Segment>, x: int, z: int)
    requires DistinctCells(road) && AllWellFormed(road)
    ensures DistinctCells(MarkCollapsing(road, x, z)) && AllWellFormed(MarkCollapsing(road, x, z))
    ensures forall c :: HasCell(MarkCollapsing(road, x, z), c) <==> HasCell(road, c)
  {
    var r := MarkCollapsing(road, x, z);
    forall i, j | 0 <= i < j < |r|
      ensures CellAt(r, i) != CellAt(r, j)
    {
      assert CellAt(road, i) != CellAt(road, j);
    }
    forall c
      ensures HasCell(r, c) <==> HasCell(road, c)
    {
      if HasCell(road, c) {
        var i :| 0 <= i < |road| && road[i].cell == c;
        assert r[i].cell == c;
      }
    }
  }

  /**
   * A tile that holds the car up is always doomed by it: the support radius
   * is inside the collapse radius.
   */
  lemma SupportersCollapse(road: seq<Segment>, x: int, z: int, i: int)
    requires 0 <= i < |road| && Within(road[i].cell, x, z, SupportRadius)
    ensures MarkCollapsing(road, x, z)[i].collapsing
  {
  }
}
