/** How update_until splits the distance to a target time into whole steps
    and one fractional step, in exact arithmetic. */
module Schedule {
  import opened Plate

  /** Conversion of a real to an integer by truncation toward zero, as
      Python's int() does for a float. */
  function Trunc(x: real): (r: int)
    ensures 0.0 <= x ==> 0 <= r && r as real <= x < r as real + 1.0
    ensures x < 0.0 ==> r <= 0 && r as real - 1.0 < x <= r as real
  {
    if 0.0 <= x then x.Floor else -((-x).Floor)
  }

  /** The number of whole steps a loop over range(int(n)) performs: none
      when the truncated count is zero or negative. */
  function WholeSteps(n: real): nat {
    if 0 < Trunc(n) then Trunc(n) else 0
  }

  /** The fraction of a step left after the whole steps. */
  function Remainder(n: real): real {
    n - Trunc(n) as real
  }

  /** The length of a fraction frac of a step dt. */
  function FractionOf(frac: real, dt: real): real {
    frac * dt
  }

  /** The step count to reach target from now with step dt. */
  function StepCount(now: real, dt: real, target: real): real
    requires dt != 0.0
  {
    (target - now) / dt
  }

  /** For a target at or after now, the whole steps plus the fractional
      step (taken only when its fraction is positive) add up to the step
      count, and the fraction is less than one step. */
  lemma StepsCoverTarget(n: real)
    requires 0.0 <= n
    ensures 0.0 <= Remainder(n) < 1.0
    ensures WholeSteps(n) as real + (if 0.0 < Remainder(n) then Remainder(n) else 0.0) == n
  {
  }

  /** For a target at or before now, no whole step and no fractional step
      is taken. */
  lemma NoStepsForPast(n: real)
    requires n <= 0.0
    ensures WholeSteps(n) == 0
    ensures !(0.0 < Remainder(n))
  {
  }

  /** Taking the whole steps and then the fractional step of the step count
      moves the clock from now exactly onto target. */
  lemma LandsOnTarget(now: real, dt: real, target: real)
    requires 0.0 < dt && now <= target
    ensures var n := StepCount(now, dt, target);
      now + WholeSteps(n) as real * dt + (if 0.0 < Remainder(n) then FractionOf(Remainder(n), dt) else 0.0) == target
  {
    var n := StepCount(now, dt, target);
    assert 0.0 <= n by {
      assert 0.0 <= target - now;
    }
    StepsCoverTarget(n);
    var w := WholeSteps(n) as real;
    var frac := if 0.0 < Remainder(n) then Remainder(n) else 0.0;
    calc {
      now + w * dt + (if 0.0 < Remainder(n) then FractionOf(Remainder(n), dt) else 0.0);
    ==
      now + w * dt + frac * dt;
    ==
      now + (w + frac) * dt;
    ==
      now + n * dt;
    ==
      target;
    }
  }

  /** The field after update_until with step count n from field f: the
      whole steps with time step dt, then one step of Remainder(n) of dt when
      that fraction is positive. */
  function Advanced(f: Field, c: Config, dt: real, n: real): (g: Field)
    requires c.Valid() && IsGrid(f, c.ny, c.nx)
    ensures IsGrid(g, c.ny, c.nx)
  {
    var whole := Iterate(f, c, dt, WholeSteps(n));
    if 0.0 < Remainder(n) then Next(whole, c, FractionOf(Remainder(n), dt)) else whole
  }

  /** A target at or before the current time leaves the field as it is. */
  lemma PastTargetKeepsField(f: Field, c: Config, dt: real, n: real)
    requires c.Valid() && IsGrid(f, c.ny, c.nx)
    requires n <= 0.0
    ensures Advanced(f, c, dt, n) == f
  {
    NoStepsForPast(n);
  }

  /** A zero field stays zero whatever the target. */
  lemma AdvancedZero(c: Config, dt: real, n: real)
    requires c.Valid()
    ensures Advanced(Zero(c.ny, c.nx), c, dt, n) == Zero(c.ny, c.nx)
  {
    IterateZero(c, dt, WholeSteps(n));
    NextOfZero(c, FractionOf(Remainder(n), dt));
  }
}
