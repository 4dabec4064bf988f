/**
 * Platform: one ground tile of the road grid, as a value. A tile is solid until
 * it is told to collapse; while collapsing it counts its timer down once per
 * frame, stops being solid when the timer reaches FadeStart, and is removed
 * from the road when the timer reaches zero.
 */
module Platform {
  import opened Difficulty

  /** Timer value at which a collapsing tile starts to fade and stops being solid. */
  const FadeStart: int := 300

  /** A grid cell: a tile at cell (x, z) sits at world position (2 x, 2 z). */
  datatype Cell = Cell(x: int, z: int)

  /** The simulation state of one tile; its mesh and colours are not modelled. */
  datatype Segment = Segment(cell: Cell, solid: bool, collapsing: bool, timer: int)

  /** A newly created tile: solid, not collapsing, timer at the given delay. */
  function Fresh(cell: Cell, timer: int): Segment
  {
    Segment(cell, true, false, timer)
  }

  /**
   * The state of every live tile: a positive timer no larger than the longest
   * delay; an idle tile is solid and still has a full delay (at least the
   * shortest one); a tile that is no longer solid is already fading.
   */
  predicate WellFormed(s: Segment)
  {
    0 < s.timer <= MaxCollapseTime &&
    (!s.collapsing ==> s.solid && MinCollapseTime <= s.timer) &&
    (!s.solid ==> s.timer <= FadeStart)
  }

  /**
   * startCollapse: the tile is collapsing afterwards; nothing else changes, in
   * particular neither the timer nor solidity.
   */
  function Collapsed(s: Segment): (r: Segment)
    ensures r.collapsing
    ensures r.cell == s.cell && r.solid == s.solid && r.timer == s.timer
    ensures WellFormed(s) ==> WellFormed(r)
  {
    if !s.collapsing then s.(collapsing := true) else s
  }

  /** Starting a collapse twice is the same as starting it once. */
  lemma CollapseIdempotent(s: Segment)
    ensures Collapsed(Collapsed(s)) == Collapsed(s)
  {
  }

  /**
   * The state after one call of update: an idle tile is untouched; a collapsing
   * tile loses one frame of timer and is solid afterwards only if it was solid
   * before and its new timer is still above FadeStart. Neither solidity nor the
   * collapsing flag ever comes back.
   */
  function Stepped(s: Segment): (r: Segment)
    ensures r.cell == s.cell && r.collapsing == s.collapsing
    ensures !s.collapsing ==> r == s
    ensures s.collapsing ==> r.timer == s.timer - 1 && (r.solid <==> s.solid && r.timer > FadeStart)
    ensures r.timer <= s.timer && (r.solid ==> s.solid)
  {
    if s.collapsing then
      var t := s.timer - 1;
      s.(timer := t, solid := if t <= FadeStart then false else s.solid)
    else
      s
  }

  /**
   * The value update returns: false exactly when the tile was collapsing and
   * its new timer is zero or below, i.e. when the tile is to be removed.
   */
  function Survives(s: Segment): (alive: bool)
    ensures alive <==> !(s.collapsing && Stepped(s).timer <= 0)
  {
    if s.collapsing then s.timer - 1 > 0 else true
  }

  /** A tile that survives an update is still well formed afterwards. */
  lemma SteppedWellFormed(s: Segment)
    requires WellFormed(s) && Survives(s)
    ensures WellFormed(Stepped(s))
  {
  }

  /** The cosmetic phase a tile's update selects: warning colours, or fading out. */
  datatype Phase = Idle | Warning | Fading

  function PhaseOf(s: Segment): Phase
  {
    if !s.collapsing then Idle else if s.timer > FadeStart then Warning else Fading
  }

  /**
   * Support is lost at the very frame the fading phase starts: a solid tile that
   * has begun collapsing is still solid after an update exactly when that update
   * leaves it in the warning phase.
   */
  lemma {:induction false} SolidUntilFading(s: Segment)
    requires s.collapsing && s.solid
    ensures Stepped(s).solid <==> PhaseOf(Stepped(s)) == Warning
  {
  }

  /** The tile after n updates, ignoring removal. */
  function Run(s: Segment, n: nat): Segment
  {
    if n == 0 then s else Stepped(Run(s, n - 1))
  }

  /**
   * After n updates a collapsing tile has lost exactly n frames of timer, is
   * still collapsing, and (once it has been updated at all) is solid exactly
   * when it started solid and the timer is still above FadeStart.
   */
  lemma {:induction false} RunCollapsing(s: Segment, n: nat)
    requires s.collapsing
    ensures Run(s, n).cell == s.cell && Run(s, n).collapsing
    ensures Run(s, n).timer == s.timer - n
    ensures n > 0 ==> (Run(s, n).solid <==> s.solid && s.timer - n > FadeStart)
  {
    if n > 0 {
      RunCollapsing(s, n - 1);
    }
  }

  /** An idle tile is never changed by updates and is never removed. */
  lemma {:induction false} RunIdle(s: Segment, n: nat)
    requires !s.collapsing
    ensures Run(s, n) == s && Survives(Run(s, n))
  {
    if n > 0 {
      RunIdle(s, n - 1);
    }
  }

  /**
   * A collapsing tile with timer T >= 1 survives its first T - 1 updates and is
   * removed by the T-th: update reports removal once, when the timer reaches 0.
   */
  lemma {:induction false} RemovedWhenTimerRunsOut(s: Segment)
    requires s.collapsing && s.timer >= 1
    ensures forall n: nat :: n < s.timer - 1 ==> Survives(Run(s, n))
    ensures !Survives(Run(s, s.timer - 1))
  {
    forall n: nat | n < s.timer - 1
      ensures Survives(Run(s, n))
    {
      RunCollapsing(s, n);
    }
    RunCollapsing(s, s.timer - 1);
  }
}
