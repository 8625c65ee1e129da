/** `pairwise_grid_features`: for each edge direction of the grid, the
    n-by-n matrix `np.dot(first.T, second)` where `first` and `second` list
    the vectors of the two endpoints of every edge of that direction.  On a
    one-hot label grid, entry [a][b] counts the edges whose first endpoint
    is labelled a and whose second endpoint is labelled b. */
module PairwiseFeatures {
  import opened Sums
  import opened Matrices
  import opened Grids
  import opened Outcomes

  /** Horizontal, vertical, and the two diagonals (8-neighborhood only). */
  datatype Direction = Right | Down | UpRight | DownRight

  predicate ValidNeighborhood(neighborhood: int)
  {
    neighborhood == 4 || neighborhood == 8
  }

  /** The directions whose features the source appends, in append order. */
  function Directions(neighborhood: int): (ds: seq<Direction>)
    requires ValidNeighborhood(neighborhood)
  {
    if neighborhood == 4 then [Right, Down] else [Right, Down, UpRight, DownRight]
  }

  /** The slice that holds the first endpoint of every edge of direction `d`. */
  function FirstSlice(d: Direction, rows: nat, cols: nat): Slice
  {
    match d
    case Right => Slice(0, rows, 0, DropLast(cols))                // grid_labels[:, :-1, :]
    case Down => Slice(0, DropLast(rows), 0, cols)                 // grid_labels[:-1, :, :]
    case UpRight => Slice(1, rows, 0, DropLast(cols))              // grid_labels[1:, :-1, :]
    case DownRight => Slice(0, DropLast(rows), 0, DropLast(cols))  // grid_labels[:-1, :-1, :]
  }

  /** The slice that holds the second endpoint of every edge of direction `d`. */
  function SecondSlice(d: Direction, rows: nat, cols: nat): Slice
  {
    match d
    case Right => Slice(0, rows, 1, cols)                 // grid_labels[:, 1:, :]
    case Down => Slice(1, rows, 0, cols)                  // grid_labels[1:, :, :]
    case UpRight => Slice(0, DropLast(rows), 1, cols)     // grid_labels[:-1, 1:, :]
    case DownRight => Slice(1, rows, 1, cols)             // grid_labels[1:, 1:, :]
  }

  /** `[:-1]` and `[1:]` of one axis have the same length. */
  lemma SpanOfShifts(n: nat)
    ensures Span(0, DropLast(n)) == Span(1, n) == DropLast(n)
  {
  }

  /** The number of edges of direction `d` in a rows-by-cols grid. */
  function EdgeCount(d: Direction, rows: nat, cols: nat): nat
  {
    match d
    case Right => rows * DropLast(cols)
    case Down => DropLast(rows) * cols
    case UpRight => DropLast(rows) * DropLast(cols)
    case DownRight => DropLast(rows) * DropLast(cols)
  }

  /** Both slices of a direction have `EdgeCount` cells and list them from
      the same block of anchors. */
  lemma SlicesMatch(d: Direction, rows: nat, cols: nat)
    ensures SliceFits(FirstSlice(d, rows, cols), rows, cols)
    ensures SliceFits(SecondSlice(d, rows, cols), rows, cols)
    ensures |SliceCells(FirstSlice(d, rows, cols))| == EdgeCount(d, rows, cols)
    ensures |SliceCells(SecondSlice(d, rows, cols))| == EdgeCount(d, rows, cols)
  {
    SpanOfShifts(rows);
    SpanOfShifts(cols);
  }

  datatype Edge = Edge(u: Cell, v: Cell)

  /** The edges of direction `d`, pairing the two slices cell by cell. */
  function Edges(d: Direction, rows: nat, cols: nat): (es: seq<Edge>)
    ensures |es| == EdgeCount(d, rows, cols)
  {
    SlicesMatch(d, rows, cols);
    var first := SliceCells(FirstSlice(d, rows, cols));
    var second := SliceCells(SecondSlice(d, rows, cols));
    seq(|first|, k requires 0 <= k < |first| => Edge(first[k], second[k]))
  }

  predicate InGrid(c: Cell, rows: nat, cols: nat)
  {
    c.row < rows && c.col < cols
  }

  /** `v` is the neighbour of `u` in direction `d`. */
  predicate Adjacent(d: Direction, u: Cell, v: Cell)
  {
    match d
    case Right => v.row == u.row && v.col == u.col + 1
    case Down => v.row == u.row + 1 && v.col == u.col
    case UpRight => u.row == v.row + 1 && v.col == u.col + 1
    case DownRight => v.row == u.row + 1 && v.col == u.col + 1
  }

  predicate EdgesInGrid(es: seq<Edge>, rows: nat, cols: nat)
  {
    forall k :: 0 <= k < |es| ==> InGrid(es[k].u, rows, cols) && InGrid(es[k].v, rows, cols)
  }

  /** Edge k of direction `d` joins two grid cells that are neighbours in
      direction `d`. */
  lemma EdgeIsNeighbourPair(d: Direction, rows: nat, cols: nat, k: nat)
    requires k < EdgeCount(d, rows, cols)
    ensures InGrid(Edges(d, rows, cols)[k].u, rows, cols)
    ensures InGrid(Edges(d, rows, cols)[k].v, rows, cols)
    ensures Adjacent(d, Edges(d, rows, cols)[k].u, Edges(d, rows, cols)[k].v)
  {
    SlicesMatch(d, rows, cols);
    SpanOfShifts(rows);
    SpanOfShifts(cols);
  }

  /** The edge listed at position i * c + j of direction `d` joins cell
      (i, j) of the first slice to cell (i, j) of the second. */
  lemma EdgeAtOffset(d: Direction, rows: nat, cols: nat, i: nat, j: nat)
    requires i < Span(FirstSlice(d, rows, cols).r0, FirstSlice(d, rows, cols).r1)
    requires j < Span(FirstSlice(d, rows, cols).c0, FirstSlice(d, rows, cols).c1)
    ensures var f, s := FirstSlice(d, rows, cols), SecondSlice(d, rows, cols);
      var k := i * Span(f.c0, f.c1) + j;
      k < |Edges(d, rows, cols)| &&
      Edges(d, rows, cols)[k] == Edge(Cell(f.r0 + i, f.c0 + j), Cell(s.r0 + i, s.c0 + j))
  {
    var f, s := FirstSlice(d, rows, cols), SecondSlice(d, rows, cols);
    SameSpans(d, rows, cols);
    SliceCellsAt(f, i, j);
    SliceCellsAt(s, i, j);
    var k := i * Span(f.c0, f.c1) + j;
    assert i * Span(s.c0, s.c1) + j == k;
    SlicesMatch(d, rows, cols);
    assert Edges(d, rows, cols)[k] == Edge(SliceCells(f)[k], SliceCells(s)[k]);
  }

  /** The two slices of a direction have the same height and width. */
  lemma SameSpans(d: Direction, rows: nat, cols: nat)
    ensures var f, s := FirstSlice(d, rows, cols), SecondSlice(d, rows, cols);
      Span(f.r0, f.r1) == Span(s.r0, s.r1) && Span(f.c0, f.c1) == Span(s.c0, s.c1)
  {
    SpanOfShifts(rows);
    SpanOfShifts(cols);
  }

  /** Every pair of grid cells that are neighbours in direction `d` is an
      edge of direction `d`. */
  lemma NeighbourPairIsEdge(d: Direction, rows: nat, cols: nat, u: Cell, v: Cell)
    requires InGrid(u, rows, cols) && InGrid(v, rows, cols) && Adjacent(d, u, v)
    ensures Edge(u, v) in Edges(d, rows, cols)
  {
    var f, s := FirstSlice(d, rows, cols), SecondSlice(d, rows, cols);
    var i := if d == UpRight then u.row - 1 else u.row;
    NeighbourInSlices(d, rows, cols, u, v);
    EdgeAtOffset(d, rows, cols, i, u.col);
    var es := Edges(d, rows, cols);
    assert es[i * Span(f.c0, f.c1) + u.col] == Edge(u, v);
  }

  /** The endpoints of a neighbour pair sit at the same offset (i, u.col)
      of the two slices. */
  lemma NeighbourInSlices(d: Direction, rows: nat, cols: nat, u: Cell, v: Cell)
    requires InGrid(u, rows, cols) && InGrid(v, rows, cols) && Adjacent(d, u, v)
    ensures var f, s := FirstSlice(d, rows, cols), SecondSlice(d, rows, cols);
      var i := if d == UpRight then u.row - 1 else u.row;
      0 <= i < Span(f.r0, f.r1) && u.col < Span(f.c0, f.c1) &&
      u == Cell(f.r0 + i, f.c0 + u.col) && v == Cell(s.r0 + i, s.c0 + u.col)
  {
    SpanOfShifts(rows);
    SpanOfShifts(cols);
  }

  /** Every edge of direction `d` joins two grid cells. */
  lemma EdgesStayInGrid(d: Direction, rows: nat, cols: nat)
    ensures EdgesInGrid(Edges(d, rows, cols), rows, cols)
  {
    var es := Edges(d, rows, cols);
    forall k | 0 <= k < |es|
      ensures InGrid(es[k].u, rows, cols) && InGrid(es[k].v, rows, cols)
    {
      EdgeIsNeighbourPair(d, rows, cols, k);
    }
  }

  /** No two edges of a direction start at the same cell, so every
      neighbour pair is listed once. */
  lemma EdgesDistinct(d: Direction, rows: nat, cols: nat)
    ensures forall k, l :: 0 <= k < l < |Edges(d, rows, cols)| ==>
      Edges(d, rows, cols)[k].u != Edges(d, rows, cols)[l].u
  {
    SlicesMatch(d, rows, cols);
    var es := Edges(d, rows, cols);
    var first := SliceCells(FirstSlice(d, rows, cols));
    forall k, l | 0 <= k < l < |es|
      ensures es[k].u != es[l].u
    {
      assert es[k].u == first[k] && es[l].u == first[l];
      SliceCellsDistinct(FirstSlice(d, rows, cols), k, l);
    }
  }

  /** The edge list holds exactly the pairs of grid cells that are neighbours
      in direction `d`. */
  lemma EdgesAreNeighbours(d: Direction, rows: nat, cols: nat)
    ensures EdgesInGrid(Edges(d, rows, cols), rows, cols)
    ensures forall e :: e in Edges(d, rows, cols) <==>
      InGrid(e.u, rows, cols) && InGrid(e.v, rows, cols) && Adjacent(d, e.u, e.v)
    ensures forall k, l :: 0 <= k < l < |Edges(d, rows, cols)| ==>
      Edges(d, rows, cols)[k].u != Edges(d, rows, cols)[l].u
  {
    EdgesDistinct(d, rows, cols);
    var es := Edges(d, rows, cols);
    forall k | 0 <= k < |es|
      ensures InGrid(es[k].u, rows, cols) && InGrid(es[k].v, rows, cols) && Adjacent(d, es[k].u, es[k].v)
    {
      EdgeIsNeighbourPair(d, rows, cols, k);
    }
    forall e: Edge | InGrid(e.u, rows, cols) && InGrid(e.v, rows, cols) && Adjacent(d, e.u, e.v)
      ensures e in es
    {
      NeighbourPairIsEdge(d, rows, cols, e.u, e.v);
    }
  }

  /** `np.dot(first.T, second)` for direction `d`: the features of one
      direction (source lines 13-14, 17-18, 21-22 and 24-25). */
  function DirectionFeature(g: Grid, d: Direction): (m: Matrix)
    requires WellShaped(g)
    ensures IsMatrix(m, g.depth, g.depth)
  {
    SlicesMatch(d, g.rows, g.cols);
    MatMulTN(Window(g, FirstSlice(d, g.rows, g.cols)), Window(g, SecondSlice(d, g.rows, g.cols)),
             g.depth, g.depth)
  }

  /** The list of per-direction features, in the order of `ds`. */
  function FeatureList(g: Grid, ds: seq<Direction>): (ms: seq<Matrix>)
    requires WellShaped(g)
    ensures |ms| == |ds|
    ensures forall t :: 0 <= t < |ds| ==> ms[t] == DirectionFeature(g, ds[t]) && IsMatrix(ms[t], g.depth, g.depth)
  {
    seq(|ds|, t requires 0 <= t < |ds| => DirectionFeature(g, ds[t]))
  }

  /** `pairwise_grid_features(grid_labels, neighborhood)`: an error unless the
      neighborhood is 4 or 8; otherwise the features of right and down
      edges, followed for 8 by those of up-right and down-right edges. */
  function GridFeatures(g: Grid, neighborhood: int): (r: Result<seq<Matrix>>)
    requires WellShaped(g) && g.depth > 0
    ensures r.Err? <==> !ValidNeighborhood(neighborhood)
    ensures r.Err? ==> r.error == NeighborhoodError
    ensures r.Ok? ==> |r.value| == (if neighborhood == 4 then 2 else 4)
    ensures r.Ok? ==> forall t :: 0 <= t < |r.value| ==> IsMatrix(r.value[t], g.depth, g.depth)
    ensures r.Ok? ==> r.value[0] == DirectionFeature(g, Right) && r.value[1] == DirectionFeature(g, Down)
    ensures r.Ok? && neighborhood == 8 ==>
      r.value[2] == DirectionFeature(g, UpRight) && r.value[3] == DirectionFeature(g, DownRight)
  {
    if !ValidNeighborhood(neighborhood) then Err(NeighborhoodError)
    else Ok(FeatureList(g, Directions(neighborhood)))
  }

  /** The source's construction: check the neighborhood, then append the
      matrices to a list one direction at a time. */
  method PairwiseGridFeatures(g: Grid, neighborhood: int) returns (r: Result<seq<Matrix>>)
    requires WellShaped(g) && g.depth > 0
    ensures r == GridFeatures(g, neighborhood)
  {
    if neighborhood != 4 && neighborhood != 8 {
      return Err(NeighborhoodError);
    }
    var features: seq<Matrix> := [];
    var right := DirectionFeature(g, Right);
    features := features + [right];
    var down := DirectionFeature(g, Down);
    features := features + [down];
    if neighborhood == 8 {
      var upright := DirectionFeature(g, UpRight);
      features := features + [upright];
      var downright := DirectionFeature(g, DownRight);
      features := features + [downright];
    }
    var expected := FeatureList(g, Directions(neighborhood));
    assert |features| == |expected|;
    assert forall t :: 0 <= t < |features| ==> features[t] == expected[t];
    assert features == expected;
    r := Ok(features);
  }

  /** The label of cell `c`. */
  function LabelAt(y: seq<seq<nat>>, c: Cell): nat
    requires c.row < |y| && c.col < |y[c.row]|
  {
    y[c.row][c.col]
  }

  /** The number of edges of `es` going from a cell labelled `a` to a cell
      labelled `b`. */
  function PairCount(y: seq<seq<nat>>, rows: nat, cols: nat, es: seq<Edge>, a: nat, b: nat): nat
    requires IsLabeling(y, rows, cols) && EdgesInGrid(es, rows, cols)
  {
    if |es| == 0 then 0
    else (if LabelAt(y, es[0].u) == a && LabelAt(y, es[0].v) == b then 1 else 0)
         + PairCount(y, rows, cols, es[1..], a, b)
  }

  /** The total of `p[label of u][label of v]` over the edges (u, v) of `es`. */
  function EdgeSum(p: Matrix, n: nat, y: seq<seq<nat>>, rows: nat, cols: nat, es: seq<Edge>): real
    requires IsMatrix(p, n, n) && IsLabeling(y, rows, cols) && LabelsBelow(y, n)
    requires EdgesInGrid(es, rows, cols)
  {
    Sum(seq(|es|, k requires 0 <= k < |es| => p[LabelAt(y, es[k].u)][LabelAt(y, es[k].v)]))
  }

  /** On a one-hot grid, the window of a slice lists the basis vectors of
      the labels of the slice's cells. */
  lemma OneHotWindow(y: seq<seq<nat>>, rows: nat, cols: nat, n: nat, s: Slice, k: nat)
    requires IsLabeling(y, rows, cols) && SliceFits(s, rows, cols) && k < |SliceCells(s)|
    ensures var c := SliceCells(s)[k];
      c.row < rows && c.col < cols &&
      Window(OneHot(y, rows, cols, n), s)[k] == Basis(n, y[c.row][c.col])
  {
  }

  /** Weighting the features of direction `d` of a one-hot grid by `p` adds
      up `p[label of u][label of v]` over the edges (u, v) of direction `d`. */
  lemma FrobFeature(p: Matrix, n: nat, y: seq<seq<nat>>, rows: nat, cols: nat, d: Direction)
    requires IsMatrix(p, n, n) && IsLabeling(y, rows, cols) && LabelsBelow(y, n)
    ensures EdgesInGrid(Edges(d, rows, cols), rows, cols)
    ensures Frob(p, DirectionFeature(OneHot(y, rows, cols, n), d))
         == EdgeSum(p, n, y, rows, cols, Edges(d, rows, cols))
  {
    EdgesStayInGrid(d, rows, cols);
    SlicesMatch(d, rows, cols);
    var g := OneHot(y, rows, cols, n);
    var f, s := FirstSlice(d, rows, cols), SecondSlice(d, rows, cols);
    var a, b := Window(g, f), Window(g, s);
    var es := Edges(d, rows, cols);
    FrobMatMul(p, a, b, n, n);
    var terms := seq(|a|, k requires 0 <= k < |a| => Frob(p, Outer(a[k], b[k])));
    var weights := seq(|es|, k requires 0 <= k < |es| => p[LabelAt(y, es[k].u)][LabelAt(y, es[k].v)]);
    forall k | 0 <= k < |a|
      ensures terms[k] == weights[k]
    {
      OneHotWindow(y, rows, cols, n, f, k);
      OneHotWindow(y, rows, cols, n, s, k);
      FrobOuterBasis(p, n, n, LabelAt(y, es[k].u), LabelAt(y, es[k].v));
    }
    assert terms == weights;
  }

  /** The edge sum of the indicator matrix of (a, b) counts the (a, b) edges. */
  lemma {:induction false} EdgeSumIndicator(n: nat, y: seq<seq<nat>>, rows: nat, cols: nat, es: seq<Edge>, a: nat, b: nat)
    requires a < n && b < n && IsLabeling(y, rows, cols) && LabelsBelow(y, n)
    requires EdgesInGrid(es, rows, cols)
    ensures EdgeSum(Outer(Basis(n, a), Basis(n, b)), n, y, rows, cols, es) == PairCount(y, rows, cols, es, a, b) as real
  {
    var e := Outer(Basis(n, a), Basis(n, b));
    if |es| > 0 {
      EdgeSumIndicator(n, y, rows, cols, es[1..], a, b);
      var whole := seq(|es|, k requires 0 <= k < |es| => e[LabelAt(y, es[k].u)][LabelAt(y, es[k].v)]);
      var rest := seq(|es[1..]|, k requires 0 <= k < |es[1..]| => e[LabelAt(y, es[1..][k].u)][LabelAt(y, es[1..][k].v)]);
      assert whole[1..] == rest;
    }
  }

  /** On a one-hot label grid, entry [a][b] of the features of direction
      `d` is the number of edges of direction `d` from a cell labelled `a`
      to a cell labelled `b`. */
  lemma FeatureCountsPairs(y: seq<seq<nat>>, rows: nat, cols: nat, n: nat, d: Direction, a: nat, b: nat)
    requires IsLabeling(y, rows, cols) && LabelsBelow(y, n) && a < n && b < n
    ensures EdgesInGrid(Edges(d, rows, cols), rows, cols)
    ensures DirectionFeature(OneHot(y, rows, cols, n), d)[a][b]
         == PairCount(y, rows, cols, Edges(d, rows, cols), a, b) as real
  {
    var m := DirectionFeature(OneHot(y, rows, cols, n), d);
    var e := Outer(Basis(n, a), Basis(n, b));
    FrobOuterBasis(m, n, n, a, b);
    FrobCommutes(m, e);
    FrobFeature(e, n, y, rows, cols, d);
    EdgeSumIndicator(n, y, rows, cols, Edges(d, rows, cols), a, b);
  }

  /** On a one-hot label grid, the entries of the features of direction `d`
      add up to the number of edges of direction `d`: one per edge. */
  lemma FeatureTotal(y: seq<seq<nat>>, rows: nat, cols: nat, n: nat, d: Direction)
    requires IsLabeling(y, rows, cols) && LabelsBelow(y, n)
    ensures TableSum(DirectionFeature(OneHot(y, rows, cols, n), d)) == EdgeCount(d, rows, cols) as real
  {
    var m := DirectionFeature(OneHot(y, rows, cols, n), d);
    var es := Edges(d, rows, cols);
    FrobFeature(Ones(n), n, y, rows, cols, d);
    SumOnes(seq(|es|, k requires 0 <= k < |es| => Ones(n)[LabelAt(y, es[k].u)][LabelAt(y, es[k].v)]));
    FrobIsTableSum(Ones(n), m);
    HadamardOnes(m, n);
  }
}
