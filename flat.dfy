/** The one-dimensional, row-major view of a field that the adapter hands
    out: the field's rows laid end to end, so that flat index k is the cell
    in row k / nx and column k % nx. */
module Flat {
  import opened Status
  import opened Plate

  /** The rows of f, one after the other. */
  function Flatten(f: Field): (s: seq<real>)
  {
    if f == [] then [] else f[0] + Flatten(f[1..])
  }

  /** The row and column of flat index k in a field nx cells wide. */
  function Row(nx: int, k: int): int
    requires 0 < nx
  {
    k / nx
  }

  function Col(nx: int, k: int): int
    requires 0 < nx
  {
    k % nx
  }

  /** The flat index of cell (i, j) in a field nx cells wide. */
  function Index(nx: int, i: int, j: int): int {
    i * nx + j
  }

  /** Index and (Row, Col) are inverse bijections between the cells of an
      ny-by-nx field and the flat indices 0 .. ny * nx - 1. */
  lemma IndexInRange(ny: int, nx: int, i: int, j: int)
    requires 0 <= i < ny && 0 <= j < nx
    ensures 0 <= Index(nx, i, j) < ny * nx
    ensures Row(nx, Index(nx, i, j)) == i && Col(nx, Index(nx, i, j)) == j
  {
    assert i * nx + nx <= ny * nx by {
      MulMono(i + 1, ny, nx);
    }
    DivModUnique(Index(nx, i, j), nx, i, j);
  }

  lemma RowColInRange(ny: int, nx: int, k: int)
    requires 0 <= ny && 0 <= nx && 0 <= k < ny * nx
    ensures 0 < nx && 0 <= Row(nx, k) < ny && 0 <= Col(nx, k) < nx
    ensures Index(nx, Row(nx, k), Col(nx, k)) == k
  {
    var q, r := k / nx, k % nx;
    assert k == q * nx + r;
    if ny <= q {
      MulMono(ny, q, nx);
      assert false;
    }
  }

  /** Taking the first row off an ny-by-nx field leaves (ny - 1) rows. */
  lemma RowSplit(ny: int, nx: int)
    requires 0 < ny && 0 <= nx
    ensures nx <= ny * nx && ny * nx - nx == (ny - 1) * nx
  {
    MulMono(1, ny, nx);
  }

  /** The cell one row down is nx flat places further on. */
  lemma IndexNextRow(nx: int, i: int, j: int)
    ensures Index(nx, i + 1, j) == Index(nx, i, j) + nx
  {
  }

  lemma MulMono(a: int, b: int, n: int)
    requires a <= b && 0 <= n
    ensures a * n <= b * n
  {
  }

  lemma DivModUnique(k: int, n: int, q: int, r: int)
    requires 0 < n && 0 <= r < n && k == q * n + r
    ensures k / n == q && k % n == r
  {
    var q', r' := k / n, k % n;
    assert k == q' * n + r';
    if q' < q {
      MulMono(q' + 1, q, n);
      assert false;
    } else if q < q' {
      MulMono(q + 1, q', n);
      assert false;
    }
  }

  lemma {:induction false} FlattenLength(f: Field, ny: nat, nx: nat)
    requires IsGrid(f, ny, nx)
    ensures |Flatten(f)| == ny * nx
    decreases ny
  {
    if ny > 0 {
      FlattenLength(f[1..], ny - 1, nx);
    }
  }

  /** Flat index k of the flattened field reads cell (k / nx, k % nx). */
  lemma {:induction false} FlattenAt(f: Field, ny: nat, nx: nat, k: int)
    requires IsGrid(f, ny, nx)
    requires 0 <= k < ny * nx
    ensures |Flatten(f)| == ny * nx
    ensures 0 < nx && 0 <= Row(nx, k) < ny && 0 <= Col(nx, k) < nx
    ensures Flatten(f)[k] == f[Row(nx, k)][Col(nx, k)]
    decreases ny
  {
    FlattenLength(f, ny, nx);
    RowColInRange(ny, nx, k);
    RowSplit(ny, nx);
    var rest := Flatten(f[1..]);
    assert Flatten(f) == f[0] + rest;
    if k < nx {
      DivModUnique(k, nx, 0, k);
      assert Flatten(f)[k] == f[0][k];
    } else {
      var k' := k - nx;
      assert 0 <= k' < (ny - 1) * nx;
      RowColInRange(ny - 1, nx, k');
      FlattenAt(f[1..], ny - 1, nx, k');
      var q, r := Row(nx, k'), Col(nx, k');
      IndexNextRow(nx, q, r);
      DivModUnique(k, nx, q + 1, r);
      assert Flatten(f)[k] == rest[k'];
      assert f[1..][q] == f[q + 1];
    }
  }

  /** The field whose rows are the consecutive nx-long slices of s. */
  function Unflatten(s: seq<real>, ny: nat, nx: nat): (f: Field)
    requires |s| == ny * nx
    ensures IsGrid(f, ny, nx)
    decreases ny
  {
    if ny == 0 then []
    else
      RowSplit(ny, nx);
      [s[..nx]] + Unflatten(s[nx..], ny - 1, nx)
  }

  /** Cell (i, j) of the unflattened sequence is element i * nx + j. */
  lemma {:induction false} UnflattenAt(s: seq<real>, ny: nat, nx: nat, i: int, j: int)
    requires |s| == ny * nx
    requires 0 <= i < ny && 0 <= j < nx
    ensures 0 <= Index(nx, i, j) < |s|
    ensures Unflatten(s, ny, nx)[i][j] == s[Index(nx, i, j)]
    decreases ny
  {
    RowSplit(ny, nx);
    var rest := s[nx..];
    var u := Unflatten(s, ny, nx);
    assert u == [s[..nx]] + Unflatten(rest, ny - 1, nx);
    if i == 0 {
      assert Index(nx, 0, j) == j;
      assert u[0] == s[..nx];
    } else {
      UnflattenAt(rest, ny - 1, nx, i - 1, j);
      IndexNextRow(nx, i - 1, j);
      assert u[i] == Unflatten(rest, ny - 1, nx)[i - 1];
    }
  }

  /** Reading back the rows of an unflattened sequence gives the sequence. */
  lemma {:induction false} FlattenUnflatten(s: seq<real>, ny: nat, nx: nat)
    requires |s| == ny * nx
    ensures Flatten(Unflatten(s, ny, nx)) == s
    decreases ny
  {
    if ny > 0 {
      RowSplit(ny, nx);
      var rest := s[nx..];
      var u := Unflatten(s, ny, nx);
      assert u == [s[..nx]] + Unflatten(rest, ny - 1, nx);
      assert u[1..] == Unflatten(rest, ny - 1, nx);
      FlattenUnflatten(rest, ny - 1, nx);
      assert Flatten(u) == s[..nx] + Flatten(u[1..]);
      assert s == s[..nx] + rest;
    }
  }

  /** Cutting the flattened field back into rows gives the field. */
  lemma {:induction false} UnflattenFlatten(f: Field, ny: nat, nx: nat)
    requires IsGrid(f, ny, nx)
    ensures |Flatten(f)| == ny * nx
    ensures Unflatten(Flatten(f), ny, nx) == f
    decreases ny
  {
    FlattenLength(f, ny, nx);
    if ny > 0 {
      UnflattenFlatten(f[1..], ny - 1, nx);
      assert Flatten(f)[..nx] == f[0];
      assert Flatten(f)[nx..] == Flatten(f[1..]);
      assert f == [f[0]] + f[1..];
    }
  }

  /** The flattened all-zero field is all zeros. */
  lemma FlattenZero(ny: nat, nx: nat)
    ensures |Flatten(Zero(ny, nx))| == ny * nx
    ensures forall k :: 0 <= k < ny * nx ==> Flatten(Zero(ny, nx))[k] == 0.0
  {
    FlattenLength(Zero(ny, nx), ny, nx);
    forall k | 0 <= k < ny * nx
      ensures Flatten(Zero(ny, nx))[k] == 0.0
    {
      FlattenAt(Zero(ny, nx), ny, nx, k);
    }
  }

  /** What a whole-view assignment of src stores into a view of size
      cells: src itself when it has that many elements, its one element
      repeated when it has exactly one (broadcasting), and nothing when the
      shapes do not fit. */
  function Broadcast(src: seq<real>, size: nat): (r: Option<seq<real>>)
    ensures r.Some? <==> |src| == size || |src| == 1
    ensures r.Some? ==> |r.value| == size
    ensures r.Some? ==> forall k :: 0 <= k < size ==> r.value[k] == src[if |src| == size then k else 0]
  {
    if |src| == size then Some(src)
    else if |src| == 1 then Some(seq(size, _ => src[0]))
    else None
  }
}
