/** Uses of the adapter the way a coupling framework drives it, each with
    what it is guaranteed to observe. */
module Scenarios {
  import opened Status
  import opened Plate
  import opened Flat
  import opened Schedule
  import opened Solver
  import opened Bmi

  /** With no configuration the plate is 6 rows by 8 columns of unit
      spacing, the step is 5/36, the variable sits on grid 0, and one update
      of the all-zero plate moves the clock by one step and keeps the plate
      at zero. */
  method DefaultRun() returns (shape: seq<int>, spacing: seq<real>, size: int, step: real,
                               grid: Option<int>, time: real, field: seq<real>)
    ensures shape == [6, 8] && spacing == [1.0, 1.0] && size == 48
    ensures step == 5.0 / 36.0 && grid == Some(0)
    ensures time == step
    ensures |field| == 48 && forall k :: 0 <= k < 48 ==> field[k] == 0.0
  {
    var b := new BmiDiffusion();
    b.Initialize(None);
    var m := b.model;
    assert m.ny == 6 && m.nx == 8 && m.dx == 1.0 && m.dy == 1.0;
    shape := b.GetGridShape(0);
    spacing := b.GetGridSpacing(0);
    size := b.GetGridSize(0);
    step := b.GetTimeStep();
    grid := b.GetVarGrid(VarName);
    assert b.grids == [(0, [VarName])];
    assert VarName in b.grids[0].1;
    assert forall k :: 0 <= k < |b.grids| ==> b.grids[k].0 == 0;
    b.Update();
    time := b.GetCurrentTime();
    NextOfZero(b.model.Settings(), b.model.dt);
    var copy := b.GetValue(VarName);
    field := copy.value[..];
    FlattenZero(6, 8);
  }

  /** Running until a target time lands exactly on it, and the all-zero
      plate stays at zero; asking afterwards for an earlier time changes
      nothing. */
  method RunUntil(target: real, earlier: real) returns (reached: real, after: real, field: seq<real>)
    requires 0.0 <= target && earlier <= target
    ensures reached == target && after == target
    ensures |field| == 48 && forall k :: 0 <= k < 48 ==> field[k] == 0.0
  {
    var b := new BmiDiffusion();
    b.Initialize(None);
    b.UpdateUntil(target);
    AdvancedZero(b.model.Settings(), b.model.dt, StepCount(0.0, b.model.dt, target));
    reached := b.GetCurrentTime();
    b.UpdateUntil(earlier);
    after := b.GetCurrentTime();
    var copy := b.GetValue(VarName);
    field := copy.value[..];
    FlattenZero(6, 8);
  }

  /** Setting the whole variable and reading it back: a source of 48 values
      comes back unchanged, a single value fills every cell, and a source of
      any other length is refused and leaves the plate as it was. */
  method SetThenGet(src: seq<real>) returns (r: Outcome, before: seq<real>, after: seq<real>)
    ensures |src| == 48 ==> r == Pass && after == src
    ensures |src| == 1 ==> r == Pass && after == seq(48, _ => src[0])
    ensures |src| != 48 && |src| != 1 ==> r == Fail(SizeMismatch(48, |src|)) && after == before
    ensures |before| == 48 && forall k :: 0 <= k < 48 ==> before[k] == 0.0
  {
    var b := new BmiDiffusion();
    b.Initialize(None);
    var first := b.GetValue(VarName);
    before := first.value[..];
    FlattenZero(6, 8);
    r := b.SetValue(VarName, src);
    var second := b.GetValue(VarName);
    after := second.value[..];
  }

  /** A reference to the variable writes through to the model, while a
      copy taken before keeps the old values; names the adapter does not
      know are reported as such. */
  method ReferenceAndCopy(h: real) returns (copied: seq<real>, seen: seq<real>,
                                             unknown: Result<array<real>>)
    ensures |copied| == 48 && forall k :: 0 <= k < 48 ==> copied[k] == 0.0
    ensures seen == seq(48, _ => h)
    ensures unknown == Err(UnknownVariable("plate_temperature"))
  {
    var b := new BmiDiffusion();
    b.Initialize(None);
    var copy := b.GetValue(VarName);
    var ref := b.GetValueRef(VarName);
    var r := ref.value.Assign([h]);
    copied := copy.value[..];
    FlattenZero(6, 8);
    seen := Flatten(Snapshot(b.model.temperature));
    unknown := b.GetValue("plate_temperature");
  }

  /** After finalize the model is gone but the registries stay: the
      variable still resolves, to the last field the model held. */
  method AfterFinalize() returns (units: Result<string>, field: Result<array<real>>)
    ensures units == Ok(Units)
    ensures field.Ok? && field.value[..] == seq(48, _ => 1.0)
  {
    var b := new BmiDiffusion();
    b.Initialize(None);
    var r := b.SetValue(VarName, [1.0]);
    b.Finalize();
    units := b.GetVarUnits(VarName);
    field := b.GetValue(VarName);
  }
}
