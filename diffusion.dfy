/** The diffusion solver: a plate of ny-by-nx cells whose temperature is
    stepped forward in place, one explicit 5-point stencil step at a time. */
module Solver {
  import opened Status
  import opened Plate

  /** The value held by a two-dimensional array, row by row. */
  function Snapshot(a: array2<real>): (f: Field)
    reads a
    ensures IsGrid(f, a.Length0, a.Length1)
    ensures forall i, j :: 0 <= i < a.Length0 && 0 <= j < a.Length1 ==> f[i][j] == a[i, j]
  {
    seq(a.Length0, i requires 0 <= i < a.Length0 reads a =>
      seq(a.Length1, j requires 0 <= j < a.Length1 reads a => a[i, j]))
  }

  class Diffusion {
    const nx: int
    const ny: int
    const dx: real
    const dy: real
    const alpha: real
    var time: real
    var dt: real
    /** The current field, and the scratch array the stencil writes into. */
    const temperature: array2<real>
    const newTemperature: array2<real>

    function Settings(): Config {
      Config(nx, ny, dx, dy, alpha)
    }

    ghost predicate Valid() {
      && Settings().Valid()
      && temperature.Length0 == ny && temperature.Length1 == nx
      && newTemperature.Length0 == ny && newTemperature.Length1 == nx
      && temperature != newTemperature
    }

    /** A plate built from the given parameters, or from the defaults when
        none are given: time zero, the derived time step and an all-zero
        field. */
    constructor (config: Option<Config>)
      requires config.Some? ==> config.value.Valid()
      ensures Valid()
      ensures Settings() == if config.Some? then config.value else DefaultConfig()
      ensures time == 0.0 && dt == TimeStep(Settings())
      ensures fresh(temperature) && fresh(newTemperature)
      ensures Snapshot(temperature) == Zero(ny, nx)
      ensures Snapshot(newTemperature) == Zero(ny, nx)
    {
      var c := if config.Some? then config.value else DefaultConfig();
      nx, ny, dx, dy, alpha := c.nx, c.ny, c.dx, c.dy, c.alpha;
      time := 0.0;
      var step := Sq(Min(c.dx, c.dy)) / (4.0 * c.alpha);
      step := step / 2.0;
      dt := step;
      var t := new real[c.ny, c.nx]((i, j) => 0.0);
      temperature := t;
      newTemperature := new real[c.ny, c.nx]((i, j) => 0.0);
      new;
      SameField(temperature, Zero(ny, nx));
      SameField(newTemperature, Zero(ny, nx));
    }

    /** One step: the clock moves on by dt and the field by one stencil step
        with time step dt. */
    method Advance()
      requires Valid()
      modifies this, temperature, newTemperature
      ensures Valid() && dt == old(dt)
      ensures time == old(time) + dt
      ensures Snapshot(temperature) == Next(old(Snapshot(temperature)), Settings(), dt)
      ensures Snapshot(newTemperature) == Snapshot(temperature)
    {
      Solve();
      time := time + dt;
    }

    /** The stencil step: every interior cell of the scratch array gets the
        stencil on the current field, its first and last rows and columns
        are zeroed, and the result is copied into the current field. */
    method Solve()
      requires Valid()
      modifies temperature, newTemperature
      ensures Snapshot(temperature) == Next(old(Snapshot(temperature)), Settings(), dt)
      ensures Snapshot(newTemperature) == Snapshot(temperature)
    {
      ghost var f := Snapshot(temperature);
      ghost var c := Settings();
      SweepInterior();
      ZeroEdges();
      forall a, b | 0 <= a < ny && 0 <= b < nx
        ensures newTemperature[a, b] == NextAt(f, c, dt, a, b)
      {
        if !OnBoundary(c, a, b) {
          assert 1 <= a < ny - 1 && 1 <= b < nx - 1;
        }
      }
      forall a, b | 0 <= a < ny && 0 <= b < nx {
        temperature[a, b] := newTemperature[a, b];
      }
      SameField(temperature, Next(f, c, dt));
      SameField(newTemperature, Next(f, c, dt));
    }

    /** The first and last rows and columns of the scratch array are set
        to zero; every other cell keeps its value. */
    method ZeroEdges()
      requires Valid()
      modifies newTemperature
      ensures forall a, b :: 0 <= a < ny && 0 <= b < nx ==>
        newTemperature[a, b] == if OnBoundary(Settings(), a, b) then 0.0 else old(newTemperature[a, b])
    {
      var bottom, right := ny - 1, nx - 1;
      forall b | 0 <= b < nx {
        newTemperature[0, b] := 0.0;
      }
      forall b | 0 <= b < nx {
        newTemperature[bottom, b] := 0.0;
      }
      forall a | 0 <= a < ny {
        newTemperature[a, 0] := 0.0;
      }
      forall a | 0 <= a < ny {
        newTemperature[a, right] := 0.0;
      }
    }

    /** The loop nest of the stencil step: each interior cell of the scratch
        array gets the stencil on the current field, which is left as it is;
        the edge cells of the scratch array are not written. */
    method SweepInterior()
      requires Valid()
      modifies newTemperature
      ensures forall a, b :: 1 <= a < ny - 1 && 1 <= b < nx - 1 ==>
        newTemperature[a, b] == NextAt(Snapshot(temperature), Settings(), dt, a, b)
      ensures forall a, b :: 0 <= a < ny && 0 <= b < nx && OnBoundary(Settings(), a, b) ==>
        newTemperature[a, b] == old(newTemperature[a, b])
    {
      ghost var f := Snapshot(temperature);
      ghost var c := Settings();
      var i := 1;
      while i < ny - 1
        invariant 1 <= i && (i <= ny - 1 || i == 1)
        invariant forall a, b :: 1 <= a < i && 1 <= b < nx - 1 ==>
          newTemperature[a, b] == NextAt(f, c, dt, a, b)
        invariant forall a, b :: 0 <= a < ny && 0 <= b < nx && (a == 0 || i <= a || b == 0 || b == nx - 1) ==>
          newTemperature[a, b] == old(newTemperature[a, b])
      {
        SweepRow(i);
        i := i + 1;
      }
    }

    /** The inner loop of the stencil step: the interior cells of row i of
        the scratch array get the stencil on the current field; no other
        cell is written. */
    method SweepRow(i: int)
      requires Valid() && 1 <= i < ny - 1
      modifies newTemperature
      ensures forall b :: 1 <= b < nx - 1 ==>
        newTemperature[i, b] == NextAt(Snapshot(temperature), Settings(), dt, i, b)
      ensures forall a, b :: 0 <= a < ny && 0 <= b < nx && (a != i || b == 0 || b == nx - 1) ==>
        newTemperature[a, b] == old(newTemperature[a, b])
    {
      ghost var f := Snapshot(temperature);
      ghost var c := Settings();
      var dx2, dy2 := Sq(dx), Sq(dy);
      SqPositive(dx);
      SqPositive(dy);
      var coef := alpha * dt / (2.0 * (dx2 + dy2));
      var j := 1;
      while j < nx - 1
        invariant 1 <= j && (j <= nx - 1 || j == 1)
        invariant forall b :: 1 <= b < j ==> newTemperature[i, b] == NextAt(f, c, dt, i, b)
        invariant forall a, b :: 0 <= a < ny && 0 <= b < nx && (a != i || b == 0 || j <= b) ==>
          newTemperature[a, b] == old(newTemperature[a, b])
      {
        newTemperature[i, j] :=
          temperature[i, j] + coef * (
            dx2 * (temperature[i, j - 1] + temperature[i, j + 1]) +
            dy2 * (temperature[i - 1, j] + temperature[i + 1, j]) -
            2.0 * (dx2 + dy2) * temperature[i, j]);
        assert newTemperature[i, j] == NextAt(f, c, dt, i, j) by {
          assert !OnBoundary(c, i, j);
          assert coef == Coef(c, dt);
        }
        j := j + 1;
      }
    }
  }

  /** An array whose every cell agrees with a field of its shape holds that
      field. */
  lemma SameField(a: array2<real>, g: Field)
    requires IsGrid(g, a.Length0, a.Length1)
    requires forall i, j :: 0 <= i < a.Length0 && 0 <= j < a.Length1 ==> a[i, j] == g[i][j]
    ensures Snapshot(a) == g
  {
    var s := Snapshot(a);
    forall i | 0 <= i < a.Length0
      ensures s[i] == g[i]
    {
    }
  }
}
