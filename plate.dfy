/** The diffusion problem on its own terms: the solver's parameters, the
    derived time step and one explicit step of the 5-point stencil, stated on
    a temperature field held as a value (row i is the y index, column j the x
    index, as in the solver's ny-by-nx arrays). */
module Plate {

  /** A temperature field: f[i][j] is the cell in row i and column j. */
  type Field = seq<seq<real>>

  /** The solver's parameters: grid width and height (boundary included),
      cell spacing and diffusivity. */
  datatype Config = Config(nx: int, ny: int, dx: real, dy: real, alpha: real) {
    predicate Valid() {
      1 <= nx && 1 <= ny && 0.0 < dx && 0.0 < dy && 0.0 < alpha
    }
  }

  /** The parameters used when no configuration is given. */
  function DefaultConfig(): (c: Config)
    ensures c.Valid()
    ensures c.nx == 8 && c.ny == 6
    ensures TimeStep(c) == 5.0 / 36.0
  {
    Config(8, 6, 1.0, 1.0, 0.9)
  }

  function Min(a: real, b: real): real {
    if b < a then b else a
  }

  function Sq(x: real): real {
    x * x
  }

  lemma SqPositive(x: real)
    requires 0.0 < x
    ensures 0.0 < Sq(x)
  {
    calc {
      Sq(x);
    ==
      x * x;
    >
      0.0;
    }
  }

  lemma PositiveProduct(a: real, b: real)
    requires 0.0 < a && 0.0 < b
    ensures 0.0 < a * b
  {
  }

  /** The derived time step: the square of the smaller spacing over
      4 alpha, halved; that is, the square of the smaller spacing over
      8 alpha, which is positive. */
  function TimeStep(c: Config): (dt: real)
    requires c.Valid()
    ensures 0.0 < dt
    ensures dt * 8.0 * c.alpha == Sq(Min(c.dx, c.dy))
  {
    SqPositive(Min(c.dx, c.dy));
    Sq(Min(c.dx, c.dy)) / (4.0 * c.alpha) / 2.0
  }

  predicate IsGrid(f: Field, ny: int, nx: int) {
    |f| == ny && forall i :: 0 <= i < |f| ==> |f[i]| == nx
  }

  /** The all-zero ny-by-nx field. */
  function Zero(ny: nat, nx: nat): (f: Field)
    ensures IsGrid(f, ny, nx)
  {
    seq(ny, _ => seq(nx, _ => 0.0))
  }

  /** Cells in the first or last row or column are held at zero. */
  predicate OnBoundary(c: Config, i: int, j: int) {
    i == 0 || i == c.ny - 1 || j == 0 || j == c.nx - 1
  }

  function Coef(c: Config, dt: real): real
    requires c.Valid()
  {
    SqPositive(c.dx);
    SqPositive(c.dy);
    c.alpha * dt / (2.0 * (Sq(c.dx) + Sq(c.dy)))
  }

  /** The stencil at one interior cell, from its old value t and the old
      values of its west, east, north and south neighbours. */
  function Relax(c: Config, dt: real, t: real, west: real, east: real, north: real, south: real): real
    requires c.Valid()
  {
    var dx2, dy2 := Sq(c.dx), Sq(c.dy);
    t + Coef(c, dt) * (dx2 * (west + east) + dy2 * (north + south) - 2.0 * (dx2 + dy2) * t)
  }

  /** The value of cell (i, j) after one step from field f. */
  function NextAt(f: Field, c: Config, dt: real, i: int, j: int): real
    requires c.Valid() && IsGrid(f, c.ny, c.nx)
    requires 0 <= i < c.ny && 0 <= j < c.nx
  {
    if OnBoundary(c, i, j) then 0.0
    else Relax(c, dt, f[i][j], f[i][j - 1], f[i][j + 1], f[i - 1][j], f[i + 1][j])
  }

  /** One step with time step dt: every cell is computed from the old field
      alone, so the update is simultaneous. */
  function Next(f: Field, c: Config, dt: real): (g: Field)
    requires c.Valid() && IsGrid(f, c.ny, c.nx)
    ensures IsGrid(g, c.ny, c.nx)
  {
    seq(c.ny, i requires 0 <= i < c.ny =>
      seq(c.nx, j requires 0 <= j < c.nx => NextAt(f, c, dt, i, j)))
  }

  /** n steps with time step dt. */
  function Iterate(f: Field, c: Config, dt: real, n: nat): (g: Field)
    requires c.Valid() && IsGrid(f, c.ny, c.nx)
    ensures IsGrid(g, c.ny, c.nx)
    decreases n
  {
    if n == 0 then f else Next(Iterate(f, c, dt, n - 1), c, dt)
  }

  /** After a step every boundary cell is exactly zero, whatever the field
      held before, and every interior cell is the stencil on the old field. */
  lemma NextCells(f: Field, c: Config, dt: real, i: int, j: int)
    requires c.Valid() && IsGrid(f, c.ny, c.nx)
    requires 0 <= i < c.ny && 0 <= j < c.nx
    ensures OnBoundary(c, i, j) ==> Next(f, c, dt)[i][j] == 0.0
    ensures 1 <= i <= c.ny - 2 && 1 <= j <= c.nx - 2 ==>
      Next(f, c, dt)[i][j] ==
        Relax(c, dt, f[i][j], f[i][j - 1], f[i][j + 1], f[i - 1][j], f[i + 1][j])
  {
  }

  /** The all-zero field is a fixed point of one step. */
  lemma NextOfZero(c: Config, dt: real)
    requires c.Valid()
    ensures Next(Zero(c.ny, c.nx), c, dt) == Zero(c.ny, c.nx)
  {
    var z := Zero(c.ny, c.nx);
    var g := Next(z, c, dt);
    forall i | 0 <= i < c.ny
      ensures g[i] == z[i]
    {
      forall j | 0 <= j < c.nx
        ensures g[i][j] == 0.0
      {
        if !OnBoundary(c, i, j) {
          assert g[i][j] == Relax(c, dt, 0.0, 0.0, 0.0, 0.0, 0.0);
        }
      }
    }
  }

  /** The all-zero field stays all-zero after any number of steps. */
  lemma {:induction false} IterateZero(c: Config, dt: real, n: nat)
    requires c.Valid()
    ensures Iterate(Zero(c.ny, c.nx), c, dt, n) == Zero(c.ny, c.nx)
  {
    if n > 0 {
      IterateZero(c, dt, n - 1);
      NextOfZero(c, dt);
    }
  }

  /** The zero field with one cell (i, j) set to h. */
  function Spike(c: Config, i: int, j: int, h: real): (f: Field)
    requires c.Valid()
    ensures IsGrid(f, c.ny, c.nx)
  {
    seq(c.ny, a => seq(c.nx, b => if a == i && b == j then h else 0.0))
  }

  /** The stencil at a cell holding h whose neighbours are all zero. */
  lemma RelaxIsolated(c: Config, dt: real, h: real)
    requires c.Valid()
    ensures Relax(c, dt, h, 0.0, 0.0, 0.0, 0.0) == h - c.alpha * dt * h
  {
    var s := Sq(c.dx) + Sq(c.dy);
    SqPositive(c.dx);
    SqPositive(c.dy);
    var k := Coef(c, dt);
    assert k * (2.0 * s) == c.alpha * dt;
    calc {
      Relax(c, dt, h, 0.0, 0.0, 0.0, 0.0);
    ==
      h + k * (Sq(c.dx) * (0.0 + 0.0) + Sq(c.dy) * (0.0 + 0.0) - 2.0 * s * h);
    ==
      h - (k * (2.0 * s)) * h;
    ==
      h - c.alpha * dt * h;
    }
  }

  /** The stencil at a zero cell with one x neighbour (w) or one y
      neighbour (n) holding h and the rest zero. */
  lemma RelaxNeighbour(c: Config, dt: real, w: real, n: real)
    requires c.Valid()
    ensures Relax(c, dt, 0.0, w, 0.0, 0.0, 0.0) == Coef(c, dt) * Sq(c.dx) * w
    ensures Relax(c, dt, 0.0, 0.0, w, 0.0, 0.0) == Coef(c, dt) * Sq(c.dx) * w
    ensures Relax(c, dt, 0.0, 0.0, 0.0, n, 0.0) == Coef(c, dt) * Sq(c.dy) * n
    ensures Relax(c, dt, 0.0, 0.0, 0.0, 0.0, n) == Coef(c, dt) * Sq(c.dy) * n
  {
  }

  /** A single hot interior cell surrounded by zeros: after one step with a
      positive time step the cell has lost exactly alpha dt of its heat, and
      each of its four axis neighbours that is interior has gained a
      positive share (the x neighbours coef dx^2 h, the y neighbours
      coef dy^2 h). */
  lemma HotCellSpreads(c: Config, dt: real, i: int, j: int, h: real)
    requires c.Valid() && 0.0 < dt && 0.0 < h
    requires 1 <= i <= c.ny - 2 && 1 <= j <= c.nx - 2
    ensures var g := Next(Spike(c, i, j, h), c, dt);
      && g[i][j] == h - c.alpha * dt * h
      && g[i][j] < h
      && (2 <= j ==> 0.0 < g[i][j - 1] == Coef(c, dt) * Sq(c.dx) * h)
      && (j <= c.nx - 3 ==> 0.0 < g[i][j + 1] == Coef(c, dt) * Sq(c.dx) * h)
      && (2 <= i ==> 0.0 < g[i - 1][j] == Coef(c, dt) * Sq(c.dy) * h)
      && (i <= c.ny - 3 ==> 0.0 < g[i + 1][j] == Coef(c, dt) * Sq(c.dy) * h)
  {
    var f := Spike(c, i, j, h);
    var g := Next(f, c, dt);
    var k := Coef(c, dt);
    SqPositive(c.dx);
    SqPositive(c.dy);
    PositiveProduct(c.alpha, dt);
    PositiveProduct(c.alpha * dt, h);
    assert 0.0 < k;
    PositiveProduct(k, Sq(c.dx));
    PositiveProduct(k * Sq(c.dx), h);
    PositiveProduct(k, Sq(c.dy));
    PositiveProduct(k * Sq(c.dy), h);
    RelaxIsolated(c, dt, h);
    RelaxNeighbour(c, dt, h, h);
    assert g[i][j] == Relax(c, dt, h, 0.0, 0.0, 0.0, 0.0);
    if 2 <= j {
      assert g[i][j - 1] == Relax(c, dt, 0.0, 0.0, h, 0.0, 0.0);
    }
    if j <= c.nx - 3 {
      assert g[i][j + 1] == Relax(c, dt, 0.0, h, 0.0, 0.0, 0.0);
    }
    if 2 <= i {
      assert g[i - 1][j] == Relax(c, dt, 0.0, 0.0, 0.0, 0.0, h);
    }
    if i <= c.ny - 3 {
      assert g[i + 1][j] == Relax(c, dt, 0.0, 0.0, 0.0, h, 0.0);
    }
  }
}
