/** Three-axis numpy arrays over a 2-d grid (`x` of shape (rows, cols,
    n_features), one-hot label grids of shape (rows, cols, n_states)), label
    grids of shape (rows, cols), and numpy's slice-then-`reshape(-1, depth)`
    as an explicit list of cells. */
module Grids {
  import opened Matrices

  /** An array of shape (rows, cols, depth); `values[i][j]` is the vector of
      cell (i, j).  The shape is kept apart from the values because numpy
      keeps `shape[-1]` even when the grid has no cells. */
  datatype Grid = Grid(rows: nat, cols: nat, depth: nat, values: seq<seq<seq<real>>>)

  predicate WellShaped(g: Grid)
  {
    && |g.values| == g.rows
    && (forall i :: 0 <= i < g.rows ==> |g.values[i]| == g.cols)
    && (forall i, j :: 0 <= i < g.rows && 0 <= j < g.cols ==> |g.values[i][j]| == g.depth)
  }

  /** A label grid `y` of shape (rows, cols). */
  predicate IsLabeling(y: seq<seq<nat>>, rows: nat, cols: nat)
  {
    |y| == rows && forall i :: 0 <= i < rows ==> |y[i]| == cols
  }

  /** Every label is a valid index below `n`. */
  predicate LabelsBelow(y: seq<seq<nat>>, n: nat)
  {
    forall i, j :: 0 <= i < |y| && 0 <= j < |y[i]| ==> y[i][j] < n
  }

  datatype Cell = Cell(row: nat, col: nat)

  /** The cells of an r-by-c block, row by row: the order in which
      `reshape(-1, depth)` lists them. */
  function Anchors(r: nat, c: nat): (cs: seq<Cell>)
    ensures |cs| == r * c
    ensures forall k :: 0 <= k < |cs| ==> cs[k].row < r && cs[k].col < c
  {
    if r == 0 then [] else Anchors(r - 1, c) + seq(c, (j: nat) => Cell(r - 1, j))
  }

  /** Cell (i, j) of the block is listed at position i * c + j. */
  lemma {:induction false} AnchorsAt(r: nat, c: nat, i: nat, j: nat)
    requires i < r && j < c
    ensures i * c + j < r * c && Anchors(r, c)[i * c + j] == Cell(i, j)
  {
    if i < r - 1 {
      AnchorsAt(r - 1, c, i, j);
      assert i * c + j < (r - 1) * c;
    } else {
      assert i * c == (r - 1) * c;
    }
  }

  /** No cell of a block is listed twice. */
  lemma {:induction false} AnchorsDistinct(r: nat, c: nat, k: nat, l: nat)
    requires k < l < r * c
    ensures Anchors(r, c)[k] != Anchors(r, c)[l]
  {
    var front := Anchors(r - 1, c);
    if l < |front| {
      AnchorsDistinct(r - 1, c, k, l);
    } else {
      assert Anchors(r, c)[l] == Cell(r - 1, l - |front|);
      if k >= |front| {
        assert Anchors(r, c)[k] == Cell(r - 1, k - |front|);
      } else {
        assert Anchors(r, c)[k] == front[k];
      }
    }
  }

  /** The length of the Python slice `[lo:hi]` of an axis at least `hi` long. */
  function Span(lo: nat, hi: nat): nat
  {
    if hi > lo then hi - lo else 0
  }

  /** The bound written `-1` in `[:-1]` on an axis of length n. */
  function DropLast(n: nat): nat
  {
    if n == 0 then 0 else n - 1
  }

  /** The block `[r0:r1, c0:c1]` of a grid. */
  datatype Slice = Slice(r0: nat, r1: nat, c0: nat, c1: nat)

  predicate SliceFits(s: Slice, rows: nat, cols: nat)
  {
    s.r1 <= rows && s.c1 <= cols
  }

  /** The cells of a slice in row-major order, in grid coordinates. */
  function SliceCells(s: Slice): (cs: seq<Cell>)
    ensures |cs| == Span(s.r0, s.r1) * Span(s.c0, s.c1)
    ensures forall k :: 0 <= k < |cs| ==>
      s.r0 <= cs[k].row < s.r0 + Span(s.r0, s.r1) && s.c0 <= cs[k].col < s.c0 + Span(s.c0, s.c1)
  {
    var a := Anchors(Span(s.r0, s.r1), Span(s.c0, s.c1));
    seq(|a|, k requires 0 <= k < |a| => Cell(s.r0 + a[k].row, s.c0 + a[k].col))
  }

  /** Cell (i, j) of a slice, counted from its corner, is listed at
      position i * width + j. */
  lemma SliceCellsAt(s: Slice, i: nat, j: nat)
    requires i < Span(s.r0, s.r1) && j < Span(s.c0, s.c1)
    ensures i * Span(s.c0, s.c1) + j < |SliceCells(s)|
    ensures SliceCells(s)[i * Span(s.c0, s.c1) + j] == Cell(s.r0 + i, s.c0 + j)
  {
    AnchorsAt(Span(s.r0, s.r1), Span(s.c0, s.c1), i, j);
  }

  /** No cell of a slice is listed twice. */
  lemma SliceCellsDistinct(s: Slice, k: nat, l: nat)
    requires k < l < |SliceCells(s)|
    ensures SliceCells(s)[k] != SliceCells(s)[l]
  {
    AnchorsDistinct(Span(s.r0, s.r1), Span(s.c0, s.c1), k, l);
  }

  /** `g[r0:r1, c0:c1, :].reshape(-1, depth)`: the vectors of the slice's
      cells, one row per cell. */
  function Window(g: Grid, s: Slice): (w: Matrix)
    requires WellShaped(g) && SliceFits(s, g.rows, g.cols)
    ensures |w| == |SliceCells(s)| && IsMatrix(w, |w|, g.depth)
    ensures forall k :: 0 <= k < |w| ==> w[k] == g.values[SliceCells(s)[k].row][SliceCells(s)[k].col]
  {
    var cs := SliceCells(s);
    seq(|cs|, k requires 0 <= k < |cs| => g.values[cs[k].row][cs[k].col])
  }

  /** `g.reshape(-1, depth)`: every cell's vector, in row-major order. */
  function Flatten(g: Grid): (f: Matrix)
    requires WellShaped(g)
    ensures IsMatrix(f, g.rows * g.cols, g.depth)
  {
    Window(g, Slice(0, g.rows, 0, g.cols))
  }

  /** The cells of the whole grid, in the order of `Flatten`. */
  function GridCells(rows: nat, cols: nat): (cs: seq<Cell>)
    ensures |cs| == rows * cols
    ensures forall k :: 0 <= k < |cs| ==> cs[k].row < rows && cs[k].col < cols
  {
    SliceCells(Slice(0, rows, 0, cols))
  }

  /** The one-hot encoding of a label grid: `labels = zeros((rows, cols, n));
      labels[gx, gy, y] = 1`. */
  function OneHot(y: seq<seq<nat>>, rows: nat, cols: nat, n: nat): (g: Grid)
    requires IsLabeling(y, rows, cols)
    ensures WellShaped(g) && g.rows == rows && g.cols == cols && g.depth == n
  {
    Grid(rows, cols, n, seq(rows, i requires 0 <= i < rows =>
                             seq(cols, j requires 0 <= j < cols => Basis(n, y[i][j]))))
  }

  /** The contents of a three-axis array as nested sequences. */
  function Contents(a: array3<real>): (v: seq<seq<seq<real>>>)
    reads a
    ensures |v| == a.Length0
    ensures forall i :: 0 <= i < a.Length0 ==> |v[i]| == a.Length1
    ensures forall i, j :: 0 <= i < a.Length0 && 0 <= j < a.Length1 ==> |v[i][j]| == a.Length2
    ensures forall i, j, s :: 0 <= i < a.Length0 && 0 <= j < a.Length1 && 0 <= s < a.Length2 ==>
      v[i][j][s] == a[i, j, s]
  {
    seq(a.Length0, i requires 0 <= i < a.Length0 reads a =>
      seq(a.Length1, j requires 0 <= j < a.Length1 reads a =>
        seq(a.Length2, s requires 0 <= s < a.Length2 reads a => a[i, j, s])))
  }

  /** The one-hot fill as the source performs it: allocate a zero array of
      shape (rows, cols, n) and write a 1 at each cell's label. */
  method OneHotEncode(y: seq<seq<nat>>, rows: nat, cols: nat, n: nat) returns (g: Grid)
    requires IsLabeling(y, rows, cols) && LabelsBelow(y, n)
    ensures g == OneHot(y, rows, cols, n)
  {
    var a := new real[rows, cols, n]((i, j, s) => 0.0);
    var i := 0;
    while i < rows
      invariant 0 <= i <= rows
      invariant forall p, q, s :: 0 <= p < rows && 0 <= q < cols && 0 <= s < n ==>
        a[p, q, s] == if p < i && y[p][q] == s then 1.0 else 0.0
    {
      var j := 0;
      while j < cols
        invariant 0 <= j <= cols
        invariant forall p, q, s :: 0 <= p < rows && 0 <= q < cols && 0 <= s < n ==>
          a[p, q, s] == if (p < i || (p == i && q < j)) && y[p][q] == s then 1.0 else 0.0
      {
        a[i, j, y[i][j]] := 1.0;
        j := j + 1;
      }
      i := i + 1;
    }
    var v := Contents(a);
    g := Grid(rows, cols, n, v);
    var expected := OneHot(y, rows, cols, n);
    forall p | 0 <= p < rows
      ensures v[p] == expected.values[p]
    {
      forall q | 0 <= q < cols
        ensures v[p][q] == expected.values[p][q]
      {
        assert forall s :: 0 <= s < n ==> v[p][q][s] == Basis(n, y[p][q])[s];
      }
    }
    assert v == expected.values;
  }
}
