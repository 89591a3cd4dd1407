/** The Basic Model Interface adapter around the diffusion solver: a
    lifecycle (initialize, update, finalize), registries that name the one
    exchanged variable and its grid, and flat views of the solver's field. */
module Bmi {
  import opened Status
  import opened Plate
  import opened Flat
  import opened Schedule
  import opened Solver

  const VarName: string := "plate_surface__temperature"
  const Units: string := "K"
  const GridTypeName: string := "uniform_rectilinear_grid"
  const ComponentName: string := "Diffusion model"
  const TimeUnits: string := "-"

  /** A one-dimensional, row-major view that shares its storage with a
      two-dimensional array: writing through the view writes the array. */
  class FlatView {
    const data: array2<real>

    constructor (a: array2<real>)
      ensures data == a
    {
      data := a;
    }

    function Size(): nat {
      data.Length0 * data.Length1
    }

    /** What the view holds: the array's rows laid end to end. */
    ghost function Contents(): (s: seq<real>)
      reads data
      ensures |s| == Size()
    {
      FlattenLength(Snapshot(data), data.Length0, data.Length1);
      Flatten(Snapshot(data))
    }

    /** A new one-dimensional array holding what the view holds. */
    method Copy() returns (r: array<real>)
      ensures fresh(r) && r[..] == Contents()
    {
      var ny, nx := data.Length0, data.Length1;
      var size := ny * nx;
      r := new real[size];
      ghost var f := Snapshot(data);
      forall k | 0 <= k < size
        ensures |Flatten(f)| == size
        ensures 0 < nx && 0 <= k / nx < ny && 0 <= k % nx < nx
        ensures Flatten(f)[k] == f[k / nx][k % nx]
      {
        FlattenAt(f, ny, nx, k);
      }
      forall k | 0 <= k < size {
        r[k] := data[k / nx, k % nx];
      }
      assert r[..] == Contents();
    }

    /** Whole-view assignment from src: with as many elements as the view,
        or exactly one (broadcast to every cell), the view then holds the
        broadcast value; with any other length nothing is written and the
        shape mismatch is reported. */
    method Assign(src: seq<real>) returns (r: Outcome)
      modifies data
      ensures Broadcast(src, Size()).None? ==>
        r == Fail(SizeMismatch(Size(), |src|)) && unchanged(data)
      ensures Broadcast(src, Size()).Some? ==>
        r == Pass && Contents() == Broadcast(src, Size()).value
    {
      var b := Broadcast(src, Size());
      if b.None? {
        return Fail(SizeMismatch(Size(), |src|));
      }
      var v := b.value;
      var ny, nx := data.Length0, data.Length1;
      forall i, j | 0 <= i < ny && 0 <= j < nx
        ensures 0 <= Index(nx, i, j) < |v|
      {
        IndexInRange(ny, nx, i, j);
      }
      forall i, j | 0 <= i < ny && 0 <= j < nx {
        data[i, j] := v[Index(nx, i, j)];
      }
      ghost var u := Unflatten(v, ny, nx);
      forall i, j | 0 <= i < ny && 0 <= j < nx
        ensures data[i, j] == u[i][j]
      {
        UnflattenAt(v, ny, nx, i, j);
      }
      SameField(data, u);
      FlattenUnflatten(v, ny, nx);
      return Pass;
    }
  }

  class BmiDiffusion {
    var model: Diffusion?
    /** The registries: variable name to its array, variable name to its
        units, grid id to the names on that grid (in registration order),
        grid id to the grid's type. */
    var values: map<string, array2<real>>
    var varUnits: map<string, string>
    var grids: seq<(int, seq<string>)>
    var gridType: map<int, string>

    /** While a model is present the registries are those initialize
        fills, and the registered array is the model's own field. */
    ghost predicate Linked()
      reads this, model
    {
      model != null ==>
        && model.Valid()
        && values == map[VarName := model.temperature]
        && varUnits == map[VarName := Units]
        && grids == [(0, [VarName])]
        && gridType == map[0 := GridTypeName]
    }

    /** Between calls the model's time step is also the derived one. */
    ghost predicate Valid()
      reads this, model
    {
      Linked() && (model != null ==> model.dt == TimeStep(model.Settings()))
    }

    /** An adapter with no model and empty registries. */
    constructor ()
      ensures Valid() && model == null
      ensures values == map[] && varUnits == map[] && grids == [] && gridType == map[]
    {
      model := null;
      values, varUnits, grids, gridType := map[], map[], [], map[];
    }

    /** A new model from the given parameters (the defaults when none are
        given), and registries naming its field. */
    method Initialize(config: Option<Config>)
      requires config.Some? ==> config.value.Valid()
      modifies this
      ensures Valid() && model != null && fresh(model)
      ensures fresh(model.temperature) && fresh(model.newTemperature)
      ensures model.Settings() == if config.Some? then config.value else DefaultConfig()
      ensures GetCurrentTime() == GetStartTime()
      ensures Snapshot(model.temperature) == Zero(model.ny, model.nx)
    {
      model := new Diffusion(config);
      values := map[VarName := model.temperature];
      varUnits := map[VarName := Units];
      grids := [(0, [VarName])];
      gridType := map[0 := GridTypeName];
    }

    /** One whole step of the model. */
    method Update()
      requires Linked() && model != null
      modifies model, model.temperature, model.newTemperature
      ensures Linked() && model.dt == old(model.dt)
      ensures GetCurrentTime() == old(GetCurrentTime()) + GetTimeStep()
      ensures Snapshot(model.temperature) ==
        Next(old(Snapshot(model.temperature)), model.Settings(), model.dt)
    {
      model.Advance();
    }

    /** A step of timeFrac times the time step, after which the time step
        is what it was. */
    method UpdateFrac(timeFrac: real)
      requires Linked() && model != null
      modifies model, model.temperature, model.newTemperature
      ensures Linked() && model.dt == old(model.dt)
      ensures GetCurrentTime() == old(GetCurrentTime()) + FractionOf(timeFrac, GetTimeStep())
      ensures Snapshot(model.temperature) ==
        Next(old(Snapshot(model.temperature)), model.Settings(), FractionOf(timeFrac, model.dt))
    {
      var timeStep := GetTimeStep();
      model.dt := timeFrac * timeStep;
      Update();
      model.dt := timeStep;
    }

    /** Steps until the clock reads target: the whole steps the distance
        holds, then one fractional step for what is left. A target in the
        past changes nothing. */
    method UpdateUntil(target: real)
      requires Valid() && model != null
      modifies model, model.temperature, model.newTemperature
      ensures Valid() && model.dt == old(model.dt)
      ensures old(GetCurrentTime()) <= target ==> GetCurrentTime() == target
      ensures target <= old(GetCurrentTime()) ==>
        GetCurrentTime() == old(GetCurrentTime()) &&
        Snapshot(model.temperature) == old(Snapshot(model.temperature))
      ensures Snapshot(model.temperature) ==
        Advanced(old(Snapshot(model.temperature)), model.Settings(), model.dt,
                 StepCount(old(GetCurrentTime()), model.dt, target))
    {
      ghost var f0 := Snapshot(model.temperature);
      ghost var t0 := model.time;
      ghost var c := model.Settings();
      var step := GetTimeStep();
      var nSteps := (target - GetCurrentTime()) / step;
      assert nSteps == StepCount(t0, step, target);
      var whole := Trunc(nSteps);
      UpdateSteps(whole);
      assert WholeSteps(nSteps) == if whole > 0 then whole else 0;
      ghost var g := Iterate(f0, c, step, WholeSteps(nSteps));
      var frac := nSteps - whole as real;
      if frac > 0.0 {
        UpdateFrac(frac);
      }
      assert Snapshot(model.temperature) == Advanced(f0, c, step, nSteps);
      if t0 < target {
        LandsOnTarget(t0, step, target);
      } else {
        assert nSteps <= 0.0 by {
          assert target - t0 <= 0.0;
        }
        NoStepsForPast(nSteps);
        assert model.time == t0;
        PastTargetKeepsField(f0, c, step, nSteps);
      }
    }

    /** The whole steps of update_until: count updates, none when count is
        zero or negative. */
    method UpdateSteps(count: int)
      requires Valid() && model != null
      modifies model, model.temperature, model.newTemperature
      ensures Valid() && model.dt == old(model.dt)
      ensures var n: nat := if count > 0 then count else 0;
        && GetCurrentTime() == old(GetCurrentTime()) + n as real * GetTimeStep()
        && Snapshot(model.temperature) == Iterate(old(Snapshot(model.temperature)), model.Settings(), model.dt, n)
    {
      ghost var f0 := Snapshot(model.temperature);
      ghost var t0 := model.time;
      var k := 0;
      while k < count
        invariant 0 <= k && (k <= count || k == 0)
        invariant Valid() && model.dt == old(model.dt)
        invariant model.time == t0 + k as real * model.dt
        invariant Snapshot(model.temperature) == Iterate(f0, model.Settings(), model.dt, k)
      {
        Update();
        k := k + 1;
      }
    }

    /** Drops the model; the registries, and the array they name, stay. */
    method Finalize()
      modifies this
      ensures Valid() && model == null
      ensures values == old(values) && varUnits == old(varUnits)
      ensures grids == old(grids) && gridType == old(gridType)
    {
      model := null;
    }

    /** The name the component goes by. */
    function GetComponentName(): (r: string)
      ensures r == "Diffusion model"
    {
      ComponentName
    }

    /** The variables the component accepts: the plate temperature alone. */
    function GetInputVarNames(): (r: seq<string>)
      ensures r == ["plate_surface__temperature"]
    {
      [VarName]
    }

    /** The variables the component offers: the plate temperature alone. */
    function GetOutputVarNames(): (r: seq<string>)
      ensures r == ["plate_surface__temperature"]
    {
      [VarName]
    }

    /** The units registered for name. */
    function GetVarUnits(name: string): (r: Result<string>)
      reads this
      ensures r.Ok? <==> name in varUnits
      ensures r.Ok? ==> r.value == varUnits[name]
      ensures r.Err? ==> r.error == UnknownVariable(name)
    {
      if name in varUnits then Ok(varUnits[name]) else Err(UnknownVariable(name))
    }

    /** The first grid, in registration order, whose names include name. */
    method GetVarGrid(name: string) returns (r: Option<int>)
      ensures r.None? <==> forall k :: 0 <= k < |grids| ==> name !in grids[k].1
      ensures r.Some? ==> exists k :: (0 <= k < |grids| && grids[k].0 == r.value &&
        name in grids[k].1 && forall m :: 0 <= m < k ==> name !in grids[m].1)
    {
      var k := 0;
      while k < |grids|
        invariant 0 <= k <= |grids|
        invariant forall m :: 0 <= m < k ==> name !in grids[m].1
      {
        if name in grids[k].1 {
          return Some(grids[k].0);
        }
        k := k + 1;
      }
      return None;
    }

    /** The type registered for grid gridId. */
    function GetGridType(gridId: int): (r: Result<string>)
      reads this
      ensures r.Ok? <==> gridId in gridType
      ensures r.Ok? ==> r.value == gridType[gridId]
      ensures r.Err? ==> r.error == UnknownGrid(gridId)
    {
      if gridId in gridType then Ok(gridType[gridId]) else Err(UnknownGrid(gridId))
    }

    /** Rows and columns of the plate, whatever the grid id: the shape of
        the registered array. */
    function GetGridShape(gridId: int): (s: seq<int>)
      requires Linked() && model != null
      reads this, model
      ensures s == [values[VarName].Length0, values[VarName].Length1]
    {
      [model.ny, model.nx]
    }

    /** Row and column spacing, whatever the grid id; both positive. */
    function GetGridSpacing(gridId: int): (s: seq<real>)
      requires Linked() && model != null
      reads this, model
      ensures |s| == 2 && 0.0 < s[0] && 0.0 < s[1]
      ensures s == [model.dy, model.dx]
    {
      [model.dy, model.dx]
    }

    /** The grid's lower-left corner, whatever the grid id: the origin. */
    function GetGridOrigin(gridId: int): (r: seq<real>)
      ensures r == [0.0, 0.0]
    {
      [0.0, 0.0]
    }

    /** The number of dimensions of the grid. */
    function GetGridRank(gridId: int): (r: int)
      requires Linked() && model != null
      reads this, model
      ensures r == 2
    {
      |GetGridShape(gridId)|
    }

    /** The number of cells of the grid: those of the registered array. */
    function GetGridSize(gridId: int): (r: int)
      requires Linked() && model != null
      reads this, model
      ensures r == values[VarName].Length0 * values[VarName].Length1
    {
      var shape := GetGridShape(gridId);
      shape[0] * shape[1]
    }

    /** The time a model starts at. */
    function GetStartTime(): (t: real)
      ensures t == 0.0
    {
      0.0
    }

    /** The model's clock. */
    function GetCurrentTime(): (t: real)
      requires model != null
      reads this, model
      ensures t == model.time
    {
      model.time
    }

    /** The model's time step: between calls, the derived positive one. */
    function GetTimeStep(): (dt: real)
      requires model != null
      reads this, model
      ensures Valid() ==> dt == TimeStep(model.Settings()) && 0.0 < dt
    {
      model.dt
    }

    /** The units of time: none, the clock is dimensionless. */
    function GetTimeUnits(): (r: string)
      ensures r == "-"
    {
      TimeUnits
    }

    /** A view of the array registered for name, sharing its storage. */
    method GetValueRef(name: string) returns (r: Result<FlatView>)
      ensures r.Ok? <==> name in values
      ensures r.Ok? ==> fresh(r.value) && r.value.data == values[name]
      ensures r.Err? ==> r.error == UnknownVariable(name)
    {
      if name !in values {
        return Err(UnknownVariable(name));
      }
      var view := new FlatView(values[name]);
      return Ok(view);
    }

    /** A new flat array holding the values registered for name. */
    method GetValue(name: string) returns (r: Result<array<real>>)
      ensures r.Ok? <==> name in values
      ensures r.Ok? ==> fresh(r.value) && r.value[..] == Flatten(Snapshot(values[name]))
      ensures r.Err? ==> r.error == UnknownVariable(name)
    {
      var ref := GetValueRef(name);
      if ref.Err? {
        return Err(ref.error);
      }
      var copy := ref.value.Copy();
      return Ok(copy);
    }

    /** Whole-array assignment of src to the values registered for name,
        through a flat view of them. */
    method SetValue(name: string, src: seq<real>) returns (r: Outcome)
      modifies if name in values then {values[name]} else {}
      ensures name !in values ==> r == Fail(UnknownVariable(name))
      ensures name in values ==>
        var size := values[name].Length0 * values[name].Length1;
        && (Broadcast(src, size).None? ==>
              r == Fail(SizeMismatch(size, |src|)) && unchanged(values[name]))
        && (Broadcast(src, size).Some? ==>
              r == Pass && Flatten(Snapshot(values[name])) == Broadcast(src, size).value)
    {
      var ref := GetValueRef(name);
      if ref.Err? {
        return Fail(ref.error);
      }
      r := ref.value.Assign(src);
    }
  }

  /** With a model present, the advertised variable resolves in every
      registry: its units, its grid's type and geometry, and a size equal
      to the number of values a flat view of it holds. */
  lemma AdvertisedVariable(b: BmiDiffusion)
    requires b.Valid() && b.model != null
    ensures b.GetInputVarNames() == b.GetOutputVarNames() == [VarName]
    ensures forall n :: n in b.GetInputVarNames() + b.GetOutputVarNames() ==>
      n in b.values && b.GetVarUnits(n).Ok? && n in b.grids[0].1
    ensures b.GetVarUnits(VarName) == Ok(Units)
    ensures b.GetGridType(0) == Ok(GridTypeName)
    ensures b.GetGridRank(0) == |b.GetGridShape(0)| == |b.GetGridSpacing(0)| == |b.GetGridOrigin(0)|
    ensures b.GetGridSize(0) == |Flatten(Snapshot(b.values[VarName]))|
  {
    var a := b.values[VarName];
    FlattenLength(Snapshot(a), a.Length0, a.Length1);
  }
}
