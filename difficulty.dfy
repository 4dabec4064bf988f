/**
 * Difficulty: the level reached with a given score, and the number of frames a
 * platform takes to disappear once it starts collapsing at a given level.
 */
module Difficulty {

  /** Points needed per level. */
  const LevelThreshold: int := 1500
  /** Highest level. */
  const MaxLevel: int := 50
  /** Collapse delay, in frames, at the highest level. */
  const MinCollapseTime: int := 50
  /** Collapse delay, in frames, at level 1. */
  const MaxCollapseTime: int := 900

  /**
   * The level for a score: one level more for every full 1500 points, capped at
   * MaxLevel. The ensures clauses give the exact score band of every level.
   */
  function LevelFor(score: nat): (level: int)
    ensures 1 <= level <= MaxLevel
    ensures level < MaxLevel ==> LevelThreshold * (level - 1) <= score < LevelThreshold * level
    ensures level == MaxLevel <==> score >= LevelThreshold * (MaxLevel - 1)
  {
    var raw := score / LevelThreshold + 1;
    if raw < MaxLevel then raw else MaxLevel
  }

  /** The level never goes down while the score goes up. */
  lemma {:induction false} LevelMonotone(s: nat, t: nat)
    requires s <= t
    ensures LevelFor(s) <= LevelFor(t)
  {
    DivMonotone(s, t, LevelThreshold);
  }

  /** The first level-up happens exactly at score 1500. */
  lemma FirstLevelUp()
    ensures LevelFor(LevelThreshold - 1) == 1
    ensures LevelFor(LevelThreshold) == 2
  {
  }

  /**
   * Collapse delay for a level: MaxCollapseTime minus the spread of the two
   * delays times progress squared, progress = (level - 1) / (MaxLevel - 1),
   * floored and never below MinCollapseTime. Progress squared has denominator
   * (MaxLevel - 1)^2 = 2401, so the floor is taken of an exact integer quotient.
   */
  function CollapseTime(level: int): (frames: int)
    ensures MinCollapseTime <= frames <= MaxCollapseTime
  {
    var span := MaxLevel - 1;
    var d := level - 1;
    Square(d);
    var scaled := MaxCollapseTime * (span * span) - (MaxCollapseTime - MinCollapseTime) * (d * d);
    var floored := scaled / (span * span);
    if floored > MinCollapseTime then floored else MinCollapseTime
  }

  /**
   * The integer quotient is the game's formula: for every level from 1 to
   * MaxLevel the delay is the floor of 900 - 850 p^2, p = (level - 1) / 49,
   * computed over the reals.
   */
  lemma CollapseTimeFormula(level: int)
    requires 1 <= level <= MaxLevel
    ensures var p := (level - 1) as real / (MaxLevel - 1) as real;
      var exact := MaxCollapseTime as real - (MaxCollapseTime - MinCollapseTime) as real * p * p;
      CollapseTime(level) as real <= exact < CollapseTime(level) as real + 1.0
  {
    var span := MaxLevel - 1;
    var d := level - 1;
    SquareMonotone(d, span);
    var scaled := MaxCollapseTime * (span * span) - (MaxCollapseTime - MinCollapseTime) * (d * d);
    var q := scaled / (span * span);
    assert q * (span * span) <= scaled < q * (span * span) + span * span;
    assert CollapseTime(level) == q;
    var p := d as real / span as real;
    assert p * p == (d * d) as real / (span * span) as real;
    var exact := MaxCollapseTime as real - (MaxCollapseTime - MinCollapseTime) as real * p * p;
    assert exact == scaled as real / (span * span) as real;
  }

  /** Level 1 waits 900 frames, the highest level 50 frames. */
  lemma CollapseTimeEnds()
    ensures CollapseTime(1) == MaxCollapseTime
    ensures CollapseTime(MaxLevel) == MinCollapseTime
  {
  }

  /** A higher level never waits longer before its platforms vanish. */
  lemma {:induction false} CollapseTimeMonotone(a: int, b: int)
    requires 1 <= a <= b
    ensures CollapseTime(b) <= CollapseTime(a)
  {
    var span := MaxLevel - 1;
    var da, db := a - 1, b - 1;
    SquareMonotone(da, db);
    var sa := MaxCollapseTime * (span * span) - (MaxCollapseTime - MinCollapseTime) * (da * da);
    var sb := MaxCollapseTime * (span * span) - (MaxCollapseTime - MinCollapseTime) * (db * db);
    assert sb <= sa;
    DivMonotone(sb, sa, span * span);
  }

  /** Floor division by a positive number is monotone. */
  lemma DivMonotone(m: int, n: int, k: int)
    requires m <= n && 0 < k
    ensures m / k <= n / k
  {
    if m / k > n / k {
      assert k * (m / k) >= k * (n / k + 1) by {
        MulMonotone(k, n / k + 1, m / k);
      }
      assert false;
    }
  }

  /** Multiplication by a positive number is monotone. */
  lemma MulMonotone(k: int, a: int, b: int)
    requires 0 < k && a <= b
    ensures k * a <= k * b
  {
  }

  /** Squares are non-negative. */
  lemma Square(d: int)
    ensures d * d >= 0
  {
  }

  /** Squaring is monotone on non-negative numbers. */
  lemma SquareMonotone(a: int, b: int)
    requires 0 <= a <= b
    ensures a * a <= b * b
  {
    if 0 < a {
      MulMonotone(a, a, b);
      MulMonotone(b, a, b);
    }
  }
}
