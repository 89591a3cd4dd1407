# bmi-live diffusion model in Dafny

This project models the core of bmi-live. bmi-live is a teaching example of the Basic Model Interface (BMI), the CSDMS contract through which a coupling framework drives a numerical model without knowing its internals. The core has two classes:

- `Diffusion`, a solver for heat diffusion on a rectangular plate. Its parameters are `nx`, `ny`, `dx`, `dy` and `alpha`. Without a configuration they default to an 8 by 6 plate of unit spacing with `alpha = 0.9`. It keeps a clock `time` and a time step `dt`. The time step is derived as `min(dx, dy)^2 / (4 alpha) / 2`. The temperature field is an `ny`-by-`nx` array. Its first and last rows and columns are zeroed at the end of every step. Between steps, `set_value` or a write through `get_value_ref` may leave other values there, and the next step reads them as neighbours before zeroing them. `solve` writes an explicit 5-point stencil step into a scratch array, zeroes the edges, and copies the result back in place. `advance` solves and moves the clock by `dt`.
- `BmiDiffusion`, the BMI adapter. It holds the solver and four registries:
  - variable name to its array: the array is the solver's own temperature array, not a copy;
  - variable name to units;
  - grid id to the variable names on it;
  - grid id to grid type.

  Its operations:
  - stepping: `update`, `update_frac` and `update_until`;
  - values: a flat reference view (`get_value_ref`), a flat copy (`get_value`) and whole-array assignment (`set_value`);
  - grid and time metadata.

There is one exchanged variable, `plate_surface__temperature`, in `K`, on grid 0 of type `uniform_rectilinear_grid`.

Module layout:

- `Status`: `Option`, `Result` and `Outcome`, and the lookup and shape errors the source raises as `KeyError` and `ValueError`.
- `Plate`: the solver's mathematics on values:
  - the parameters and the derived time step;
  - one stencil step `Next`, and `Iterate` for n steps;
  - facts about them: boundary cells are zero, the zero field is fixed, and a hot cell loses heat to its neighbours.
- `Flat`: the row-major flattening behind `reshape(-1)`. Flat index `k` is cell `(k / nx, k % nx)`. The module also covers numpy's broadcasting rule for `ref[:] = src`.
- `Schedule`: the arithmetic of `update_until`:
  - Python's `int()`, which truncates toward zero;
  - the split into whole steps and a fractional step;
  - proofs that a future target is reached exactly and that a past target is a no-op.
- `Solver`: the class `Diffusion` over `array2<real>`, with its methods proved against `Plate.Next`.
- `Bmi`:
  - the class `BmiDiffusion`, whose registries are fields;
  - the class `FlatView`, the flat view that shares storage with the solver's array, so writes through it reach the model.
- `Scenarios`: client code that drives the adapter the way a framework does, with what it is guaranteed to observe.

Notes on what the code does:

- **`update_until` truncates.** It uses `int()`, which truncates toward zero. For a target in the past the step count is negative, so no whole step and no fractional step is taken. Such a call leaves the clock and the field as they are (`Schedule.NoStepsForPast`, `Schedule.PastTargetKeepsField`, `Bmi.BmiDiffusion.UpdateUntil`).
- **`finalize` keeps the registries.** It only drops the solver. The registries survive, and so does the array they name. `get_value`, `get_value_ref`, `set_value`, `get_var_units`, `get_var_grid` and `get_grid_type` keep working on the last field (`Scenarios.AfterFinalize`).
- **The stencil weights each neighbour by the spacing of its own axis.** The x neighbours (`j ± 1`) are weighted by `dx^2` and the y neighbours (`i ± 1`) by `dy^2`, and the whole update is scaled by `alpha dt / (2 (dx^2 + dy^2))`. The model keeps this weighting as written. When `dx = dy = h` the increment is `(alpha dt / 4)(w + e + n + s - 4t)`. That is proportional to the usual explicit five-point step `(alpha dt / h^2)(w + e + n + s - 4t)`, and equal to it only when `h = 2`.

## Model

Some functions are definitions without contracts of their own; the rows of the lemmas and methods built on them state their properties:

- `Flat.Flatten` is `reshape(-1)` (bmi_live/bmi_diffusion.py:189): see `Flat.FlattenLength`, `Flat.FlattenAt`, `Flat.UnflattenFlatten` and `Flat.FlattenUnflatten`.
- `Plate.Coef` (bmi_live/diffusion.py:40-41) and `Plate.Relax` (bmi_live/diffusion.py:45-49) are the stencil: see `Plate.NextCells`, `Plate.RelaxIsolated`, `Plate.RelaxNeighbour` and `Plate.HotCellSpreads`.
- `Schedule.StepCount` (bmi_live/bmi_diffusion.py:72), `Schedule.WholeSteps` (line 74), `Schedule.Remainder` (lines 77-78) and `Schedule.FractionOf` (line 60) split the distance to a target: see `Schedule.StepsCoverTarget`, `Schedule.NoStepsForPast` and `Schedule.LandsOnTarget`.

| member | source | states |
|---|---|---|
| `Plate.DefaultConfig` | bmi_live/diffusion.py:17-22 | the default parameters are valid, describe an 8-column by 6-row plate, and give the time step 5/36 |
| `Plate.TimeStep` | bmi_live/diffusion.py:25-26 | the derived step is positive, and 8 alpha dt equals the square of the smaller spacing |
| `Plate.Zero` | bmi_live/diffusion.py:28-29 | the initial field has ny rows of nx cells |
| `Plate.Next` | bmi_live/diffusion.py:37-54 | one step keeps the ny-by-nx shape of the field |
| `Plate.Iterate` | bmi_live/diffusion.py:31-35 | any number of steps keeps the shape of the field |
| `Plate.NextCells` | bmi_live/diffusion.py:43-52 | after a step every edge cell is zero, and every interior cell is the stencil applied to the old cell and its four old neighbours |
| `Plate.NextOfZero` | bmi_live/diffusion.py:37-54 | the all-zero field is a fixed point of a step |
| `Plate.IterateZero` | bmi_live/diffusion.py:31-35 | the all-zero field stays all-zero after any number of steps |
| `Plate.RelaxIsolated` | bmi_live/diffusion.py:40-49 | a cell holding h with zero neighbours becomes h - alpha dt h |
| `Plate.RelaxNeighbour` | bmi_live/diffusion.py:45-49 | a zero cell with one hot x (or y) neighbour w gains coef dx^2 w (or coef dy^2 w) |
| `Plate.HotCellSpreads` | bmi_live/diffusion.py:40-52 | a single hot interior cell loses exactly alpha dt of its heat, and each interior axis neighbour gains a positive share |
| `Flat.IndexInRange` | bmi_live/bmi_diffusion.py:189 | the flat index of an in-range cell is in range, and maps back to that row and column |
| `Flat.RowColInRange` | bmi_live/bmi_diffusion.py:189 | every flat index below ny nx maps to an in-range cell whose flat index is itself |
| `Flat.FlattenLength` | bmi_live/bmi_diffusion.py:189 | the flat view of an ny-by-nx field has ny nx elements |
| `Flat.FlattenAt` | bmi_live/bmi_diffusion.py:189 | element k of the flat view is cell (k / nx, k % nx): row-major order |
| `Flat.UnflattenAt` | bmi_live/bmi_diffusion.py:233-234 | a flat source written through the view puts element i nx + j into cell (i, j) |
| `Flat.FlattenUnflatten` | bmi_live/bmi_diffusion.py:233-234 | writing a full-size flat source and reading the view back gives the source |
| `Flat.UnflattenFlatten` | bmi_live/bmi_diffusion.py:189 | cutting the flat view back into rows gives the field |
| `Flat.FlattenZero` | bmi_live/diffusion.py:28 | the flat view of the initial field is all zeros |
| `Flat.Broadcast` | bmi_live/bmi_diffusion.py:234 | assignment succeeds exactly when the source has the view's length or length one; the stored values are then the source, or its one element repeated |
| `Schedule.Trunc` | bmi_live/bmi_diffusion.py:74 | `int()` truncates toward zero: within one below a non-negative value, within one above a negative one |
| `Schedule.StepsCoverTarget` | bmi_live/bmi_diffusion.py:72-78 | for a non-negative step count, the whole steps plus the positive remainder add up to the count, and the remainder is below one |
| `Schedule.NoStepsForPast` | bmi_live/bmi_diffusion.py:72-78 | for a non-positive step count, neither a whole step nor a fractional step is taken |
| `Schedule.LandsOnTarget` | bmi_live/bmi_diffusion.py:72-78 | for a target not before now, the whole steps and the fractional step move the clock exactly onto the target |
| `Schedule.Advanced` | bmi_live/bmi_diffusion.py:72-78 | the field after the whole steps and the fractional step keeps its shape |
| `Schedule.PastTargetKeepsField` | bmi_live/bmi_diffusion.py:72-78 | a target at or before the current time leaves the field unchanged |
| `Schedule.AdvancedZero` | bmi_live/bmi_diffusion.py:72-78 | running the all-zero plate to any target leaves it all-zero |
| `Solver.Diffusion.constructor` | bmi_live/diffusion.py:9-29 | a new solver has the given or default parameters, time 0, the derived time step, and two distinct all-zero ny-by-nx arrays |
| `Solver.Diffusion.Advance` | bmi_live/diffusion.py:31-35 | the field takes one stencil step with dt, the clock moves on by dt, and dt is unchanged |
| `Solver.Diffusion.Solve` | bmi_live/diffusion.py:37-54 | the field in place becomes `Next` of the old field, and the scratch array holds the same values |
| `Solver.Diffusion.ZeroEdges` | bmi_live/diffusion.py:51-52 | edge cells of the scratch array become zero, and all other cells keep their values |
| `Solver.Diffusion.SweepInterior` | bmi_live/diffusion.py:40-49 | every interior cell of the scratch array gets the stencil on the current field, and the edge cells keep their values |
| `Solver.Diffusion.SweepRow` | bmi_live/diffusion.py:44-49 | the interior cells of one row of the scratch array get the stencil on the current field, and every other cell keeps its value |
| `Bmi.FlatView.constructor` | bmi_live/bmi_diffusion.py:189 | the view is over the very array it was made from |
| `Bmi.FlatView.Contents` | bmi_live/bmi_diffusion.py:189 | the view holds as many values as the array has cells |
| `Bmi.FlatView.Copy` | bmi_live/bmi_diffusion.py:204 | the copy is a new array holding the view's values in row-major order |
| `Bmi.FlatView.Assign` | bmi_live/bmi_diffusion.py:234 | a source of the view's length, or of length one, is stored (broadcast if needed); any other length is refused with a size mismatch and nothing is written |
| `Bmi.BmiDiffusion.constructor` | bmi_live/bmi_diffusion.py:16-22 | a new adapter has no model and empty registries |
| `Bmi.BmiDiffusion.Initialize` | bmi_live/bmi_diffusion.py:24-45 | a fresh model with the given or default parameters at the start time with a zero field; registries that name the model's own array |
| `Bmi.BmiDiffusion.Update` | bmi_live/bmi_diffusion.py:47-49 | the clock moves on by the time step, the field takes one stencil step, and the registries stay linked |
| `Bmi.BmiDiffusion.UpdateFrac` | bmi_live/bmi_diffusion.py:51-62 | the clock moves on by the fraction of the step, the field takes one stencil step of that length, and the time step afterwards is what it was |
| `Bmi.BmiDiffusion.UpdateUntil` | bmi_live/bmi_diffusion.py:64-78 | a future target is reached exactly; a target at or before the current time leaves both the clock and the field as they are; the field is `Advanced` by the step count; the time step is unchanged |
| `Bmi.BmiDiffusion.UpdateSteps` | bmi_live/bmi_diffusion.py:74-75 | count updates (none for a count of zero or less) move the clock by that many steps and iterate the field that many times |
| `Bmi.BmiDiffusion.Finalize` | bmi_live/bmi_diffusion.py:80-82 | the model is dropped and every registry is kept |
| `Bmi.BmiDiffusion.GetComponentName` | bmi_live/bmi_diffusion.py:251-253 | the component is named "Diffusion model" |
| `Bmi.BmiDiffusion.GetInputVarNames` | bmi_live/bmi_diffusion.py:255-257 | the only input variable is plate_surface__temperature |
| `Bmi.BmiDiffusion.GetOutputVarNames` | bmi_live/bmi_diffusion.py:259-261 | the only output variable is plate_surface__temperature |
| `Bmi.BmiDiffusion.GetGridOrigin` | bmi_live/bmi_diffusion.py:271-273 | the origin is (0.0, 0.0) for any grid id |
| `Bmi.BmiDiffusion.GetStartTime` | bmi_live/bmi_diffusion.py:279-281 | the start time is 0.0 |
| `Bmi.BmiDiffusion.GetCurrentTime` | bmi_live/bmi_diffusion.py:287-289 | the current time is the model's clock |
| `Bmi.BmiDiffusion.GetTimeUnits` | bmi_live/bmi_diffusion.py:295-297 | time has units "-" |
| `Bmi.BmiDiffusion.GetVarUnits` | bmi_live/bmi_diffusion.py:99-112 | the registered units for a known name; an unknown-variable error for any other |
| `Bmi.BmiDiffusion.GetVarGrid` | bmi_live/bmi_diffusion.py:129-144 | the id of the first grid, in registration order, listing the name; none exactly when no grid lists it |
| `Bmi.BmiDiffusion.GetGridRank` | bmi_live/bmi_diffusion.py:146-159 | the grid has two dimensions |
| `Bmi.BmiDiffusion.GetGridSize` | bmi_live/bmi_diffusion.py:161-174 | the grid size is the number of cells of the registered array |
| `Bmi.BmiDiffusion.GetValueRef` | bmi_live/bmi_diffusion.py:176-189 | for a known name, a view sharing storage with the registered array; otherwise an unknown-variable error |
| `Bmi.BmiDiffusion.GetValue` | bmi_live/bmi_diffusion.py:191-204 | for a known name, a new array holding the registered values flattened row-major; otherwise an unknown-variable error |
| `Bmi.BmiDiffusion.SetValue` | bmi_live/bmi_diffusion.py:223-234 | for a known name the registered values become the broadcast source, or stay unchanged with a size-mismatch error; an unknown name is reported; no other array is touched |
| `Bmi.BmiDiffusion.GetGridShape` | bmi_live/bmi_diffusion.py:263-265 | for any grid id, the shape is rows then columns of the registered array |
| `Bmi.BmiDiffusion.GetGridSpacing` | bmi_live/bmi_diffusion.py:267-269 | for any grid id, the spacing is row spacing then column spacing, both positive |
| `Bmi.BmiDiffusion.GetGridType` | bmi_live/bmi_diffusion.py:275-277 | the registered type for a known grid id; an unknown-grid error for any other |
| `Bmi.BmiDiffusion.GetTimeStep` | bmi_live/bmi_diffusion.py:291-293 | between calls the time step is the derived one, and so is positive |
| `Bmi.AdvertisedVariable` | bmi_live/bmi_diffusion.py:12-45 | every input and output name is registered with units and on grid 0; the advertised variable resolves to units K and to a grid of type uniform_rectilinear_grid; the grid's rank matches its shape, spacing and origin, and its size equals the length of the flat view |
| `Scenarios.DefaultRun` | bmi_live/bmi_diffusion.py:24-49 | a default model is 6 by 8 with unit spacing, 48 cells, step 5/36 and its variable on grid 0; one update moves the clock by one step and keeps the zero plate zero |
| `Scenarios.RunUntil` | bmi_live/bmi_diffusion.py:64-78 | running to a target lands on it exactly, the zero plate stays zero, and a later earlier target changes nothing |
| `Scenarios.SetThenGet` | bmi_live/bmi_diffusion.py:191-234 | a 48-value source reads back unchanged, one value fills every cell, and any other length is refused and leaves the plate as it was |
| `Scenarios.ReferenceAndCopy` | bmi_live/bmi_diffusion.py:176-204 | a write through the reference reaches the model; a copy taken before keeps the old values; an unknown name is reported |
| `Scenarios.AfterFinalize` | bmi_live/bmi_diffusion.py:80-82 | after finalize the variable still resolves, to the last field the model held |

## Left out

- Reading the YAML configuration file and assigning its keys with `setattr` is not modelled. A configuration is passed as `Option<Config>`: `None` for the defaults, or a record that carries all five parameters. A file that lacks a key, or carries extra keys, is not modelled.
- Solver.Diffusion.constructor: requires at least one row and column and positive spacings and diffusivity. The source also runs with some degenerate settings, such as a zero-size plate or one zero spacing.
- Bmi.BmiDiffusion.Initialize: has the same requirement on its configuration as `Solver.Diffusion.constructor`.
- Lifecycle misuse is not modelled as an error value. The operations that dereference the model require that a model is present. In the source, calling them before `initialize` or after `finalize` fails with an attribute error on `None`. These operations are the stepping operations, `get_grid_shape`, `get_grid_spacing`, `get_grid_rank`, `get_grid_size`, `get_current_time` and `get_time_step`.
- Bmi.BmiDiffusion.UpdateUntil: requires the derived, positive time step. This is what `initialize` and every update leave in place. A time step of zero fails with a division by zero in the source and is not modelled.
- Floating point is not modelled: all arithmetic is on exact reals. The "exact" landing of `update_until` holds in exact arithmetic only. Rounding in the fractional step is not captured.
- `get_var_type` and `get_var_nbytes` are not modelled, because they report numpy's dtype name and byte count.
- `get_end_time` is not modelled, because it returns the largest double.
- `set_value` takes its source as a flat sequence of reals, and a scalar source is the one-element sequence. Other numpy broadcast shapes and dtype conversions are not modelled.
- `Solver.Diffusion.SweepInterior`, `Solver.Diffusion.SweepRow`, `Solver.Diffusion.ZeroEdges` and `Bmi.BmiDiffusion.UpdateSteps` are parts of `solve` and `update_until`, stated as methods of their own.
- The `Bmi` base class from `basic_modeling_interface` is not part of this model, and neither is packaging (`setup.py`, `bmi_live/__init__.py`). The index-based accessors in `bmi_diffusion.py` are commented out in the source and are not modelled.
- Concurrency is not modelled; the adapter is single-threaded.
