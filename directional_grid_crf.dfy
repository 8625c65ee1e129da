/** `DirectionalGridCRF`: a grid CRF with one unsymmetrised n_states-by-
    n_states block of pairwise weights per edge direction.  Its joint
    feature vector is the per-state accumulated evidence of the labelled
    state, followed by the pair-count matrices of the directions, stacked
    in direction order and ravelled. */
module DirectionalGridCrf {
  import opened Sums
  import opened Matrices
  import opened Grids
  import opened PairwiseFeatures
  import opened Outcomes
  import GridCrf

  /** The model's parameters.  Its feature count is its state count: the
      unary features below pick `x[cell][label]`, which is the evidence for
      the cell's state only when x has one feature per state. */
  datatype Crf = Crf(nStates: GridCrf.Positive, neighborhood: int)

  /** `n_edge_types`: two for the 4-neighborhood, four for anything else. */
  function EdgeTypeCount(neighborhood: int): nat
  {
    if neighborhood == 4 then 2 else 4
  }

  /** For a neighborhood `psi` accepts, there is one edge type per direction
      whose features are appended. */
  lemma EdgeTypesAreDirections(neighborhood: int)
    requires ValidNeighborhood(neighborhood)
    ensures EdgeTypeCount(neighborhood) == |Directions(neighborhood)|
  {
  }

  /** The number of pairwise weights. */
  function PairwiseCount(crf: Crf): nat
  {
    EdgeTypeCount(crf.neighborhood) * (crf.nStates * crf.nStates)
  }

  /** `size_psi`: n_states unary weights and n_edge_types * n_states ** 2
      pairwise weights. */
  function SizePsi(crf: Crf): nat
  {
    crf.nStates + PairwiseCount(crf)
  }

  /** The closed form of `size_psi` for both neighborhood kinds. */
  lemma SizePsiFormula(crf: Crf)
    ensures crf.neighborhood == 4 ==> SizePsi(crf) == crf.nStates + 2 * crf.nStates * crf.nStates
    ensures crf.neighborhood != 4 ==> SizePsi(crf) == crf.nStates + 4 * crf.nStates * crf.nStates
  {
  }

  /** `np.bincount(labels, weights, minlength=n)` for labels below n: entry s
      accumulates the weights of the positions labelled s, one position at
      a time. */
  function BinCount(labels: seq<nat>, weights: seq<real>, n: nat): (bins: seq<real>)
    requires |labels| == |weights|
    requires forall k :: 0 <= k < |labels| ==> labels[k] < n
    ensures |bins| == n
    decreases |labels|
  {
    if |labels| == 0 then ZeroVector(n)
    else
      var last := |labels| - 1;
      var bins := BinCount(labels[..last], weights[..last], n);
      bins[labels[last] := bins[labels[last]] + weights[last]]
  }

  /** The weights of the positions labelled `s`, the others zeroed. */
  function Selected(labels: seq<nat>, weights: seq<real>, s: nat): (r: seq<real>)
    requires |labels| == |weights|
    ensures |r| == |labels|
  {
    seq(|labels|, k requires 0 <= k < |labels| => if labels[k] == s then weights[k] else 0.0)
  }

  /** Bin s holds the total weight of the positions labelled s. */
  lemma {:induction false} BinCountAt(labels: seq<nat>, weights: seq<real>, n: nat, s: nat)
    requires |labels| == |weights|
    requires forall k :: 0 <= k < |labels| ==> labels[k] < n
    requires s < n
    ensures BinCount(labels, weights, n)[s] == Sum(Selected(labels, weights, s))
    decreases |labels|
  {
    if |labels| == 0 {
      SumZero(Selected(labels, weights, s));
    } else {
      var last := |labels| - 1;
      BinCountAt(labels[..last], weights[..last], n, s);
      var front := Selected(labels[..last], weights[..last], s);
      assert Selected(labels, weights, s) == front + [Selected(labels, weights, s)[last]];
      SumSnoc(front, Selected(labels, weights, s)[last]);
    }
  }

  /** Each position's weight scored with `v` at the position's label. */
  function Scored(v: seq<real>, labels: seq<nat>, weights: seq<real>): (r: seq<real>)
    requires |labels| == |weights|
    requires forall k :: 0 <= k < |labels| ==> labels[k] < |v|
    ensures |r| == |labels|
  {
    seq(|labels|, k requires 0 <= k < |labels| => v[labels[k]] * weights[k])
  }

  /** Scoring one more position adds its score. */
  lemma ScoredSnoc(v: seq<real>, labels: seq<nat>, weights: seq<real>)
    requires |labels| == |weights| && |labels| > 0
    requires forall k :: 0 <= k < |labels| ==> labels[k] < |v|
    ensures var last := |labels| - 1;
      Sum(Scored(v, labels, weights)) == Sum(Scored(v, labels[..last], weights[..last])) + v[labels[last]] * weights[last]
  {
    var last := |labels| - 1;
    var whole := Scored(v, labels, weights);
    var front := Scored(v, labels[..last], weights[..last]);
    var extended := front + [v[labels[last]] * weights[last]];
    forall k | 0 <= k < |whole|
      ensures whole[k] == extended[k]
    {
    }
    assert whole == extended;
    SumSnoc(front, v[labels[last]] * weights[last]);
  }

  /** Scoring the bins with `v` scores each position's weight with `v` at
      the position's label. */
  lemma {:induction false} DotBinCount(v: seq<real>, labels: seq<nat>, weights: seq<real>)
    requires |labels| == |weights|
    requires forall k :: 0 <= k < |labels| ==> labels[k] < |v|
    ensures Dot(v, BinCount(labels, weights, |v|)) == Sum(Scored(v, labels, weights))
    decreases |labels|
  {
    var n := |v|;
    if |labels| == 0 {
      DotZero(v, ZeroVector(n));
    } else {
      var last := |labels| - 1;
      var lf, wf := labels[..last], weights[..last];
      DotBinCount(v, lf, wf);
      var before := BinCount(lf, wf, n);
      var s := labels[last];
      var after := before[s := before[s] + weights[last]];
      var bump := seq(n, i requires 0 <= i < n => if i == s then weights[last] else 0.0);
      assert BinCount(labels, weights, n) == after;
      DotAdd(v, before, bump, after);
      DotSingle(v, bump, s);
      ScoredSnoc(v, labels, weights);
    }
  }

  /** `y.ravel()`: the labels in row-major cell order. */
  function LabelList(y: seq<seq<nat>>, rows: nat, cols: nat): (ls: seq<nat>)
    requires IsLabeling(y, rows, cols)
    ensures |ls| == rows * cols
  {
    var cells := GridCells(rows, cols);
    seq(|cells|, k requires 0 <= k < |cells| => y[cells[k].row][cells[k].col])
  }

  /** `x[gx, gy, y].ravel()`: each cell's evidence for its own label. */
  function SelectedUnaries(x: Grid, y: seq<seq<nat>>): (us: seq<real>)
    requires WellShaped(x) && IsLabeling(y, x.rows, x.cols) && LabelsBelow(y, x.depth)
    ensures |us| == x.rows * x.cols
  {
    var cells := GridCells(x.rows, x.cols);
    seq(|cells|, k requires 0 <= k < |cells| => x.values[cells[k].row][cells[k].col][y[cells[k].row][cells[k].col]])
  }

  /** Stacking k n-by-n matrices and ravelling gives k * n * n entries. */
  lemma RavelStackLength(fs: seq<Matrix>, n: nat)
    requires forall u :: 0 <= u < |fs| ==> IsMatrix(fs[u], n, n)
    ensures |Ravel(Stack(fs))| == |fs| * (n * n)
  {
    var k := |fs|;
    StackShape(fs, n, n);
    RavelLength(Stack(fs), k * n, n);
    MulAssoc(k, n, n);
  }

  /** `DirectionalGridCRF.psi(x, y)` for an integral labelling.  A label that
      is not an index into x's last axis, or not a state, fails; then an
      unknown neighborhood fails.  The feature count of x is not checked. */
  function Psi(crf: Crf, x: Grid, y: seq<seq<nat>>): (r: Result<seq<real>>)
    requires WellShaped(x) && IsLabeling(y, x.rows, x.cols)
    ensures r.Ok? ==> |r.value| == SizePsi(crf)
    ensures !(LabelsBelow(y, x.depth) && LabelsBelow(y, crf.nStates)) ==> r == Err(LabelOutOfRange)
    ensures LabelsBelow(y, x.depth) && LabelsBelow(y, crf.nStates) ==>
      (r.Ok? <==> ValidNeighborhood(crf.neighborhood)) && (r.Err? ==> r.error == NeighborhoodError)
  {
    var n := crf.nStates;
    if !LabelsBelow(y, x.depth) || !LabelsBelow(y, n) then Err(LabelOutOfRange)
    else
      var unaries := BinCount(LabelList(y, x.rows, x.cols), SelectedUnaries(x, y), n);
      var oneHot := OneHot(y, x.rows, x.cols, n);
      match GridFeatures(oneHot, crf.neighborhood)
      case Err(e) => Err(e)
      case Ok(fs) =>
        RavelStackLength(fs, n);
        Ok(unaries + Ravel(Stack(fs)))
  }

  /** The value of `psi` when it succeeds. */
  lemma PsiValue(crf: Crf, x: Grid, y: seq<seq<nat>>)
    requires WellShaped(x) && IsLabeling(y, x.rows, x.cols)
    requires LabelsBelow(y, x.depth) && LabelsBelow(y, crf.nStates) && ValidNeighborhood(crf.neighborhood)
    ensures Psi(crf, x, y).Ok?
    ensures Psi(crf, x, y).value
         == BinCount(LabelList(y, x.rows, x.cols), SelectedUnaries(x, y), crf.nStates)
          + Ravel(Stack(FeatureList(OneHot(y, x.rows, x.cols, crf.nStates), Directions(crf.neighborhood))))
  {
    var oneHot := OneHot(y, x.rows, x.cols, crf.nStates);
    assert GridFeatures(oneHot, crf.neighborhood) == Ok(FeatureList(oneHot, Directions(crf.neighborhood)));
  }

  /** Unary entry s of `psi` is the evidence for s summed over the cells
      labelled s: the same reference sum as the unary block of `GridCRF`,
      and zero for a state that no label can reach. */
  lemma PsiUnaryEntry(crf: Crf, x: Grid, y: seq<seq<nat>>, s: nat)
    requires WellShaped(x) && IsLabeling(y, x.rows, x.cols)
    requires LabelsBelow(y, x.depth) && LabelsBelow(y, crf.nStates) && ValidNeighborhood(crf.neighborhood)
    requires s < crf.nStates
    ensures Psi(crf, x, y).Ok? && s < |Psi(crf, x, y).value|
    ensures Psi(crf, x, y).value[s]
         == Sum(Selected(LabelList(y, x.rows, x.cols), SelectedUnaries(x, y), s))
    ensures s < x.depth ==> Psi(crf, x, y).value[s] == GridCrf.StateEvidence(x, y, s, s)
    ensures s >= x.depth ==> Psi(crf, x, y).value[s] == 0.0
  {
    PsiValue(crf, x, y);
    BinCountAt(LabelList(y, x.rows, x.cols), SelectedUnaries(x, y), crf.nStates, s);
    SelectedIsStateEvidence(x, y, s);
  }

  /** The unary terms picked out for state s are, cell by cell, the terms
      of `GridCrf.StateEvidence`; none is picked when s is not a label. */
  lemma SelectedIsStateEvidence(x: Grid, y: seq<seq<nat>>, s: nat)
    requires WellShaped(x) && IsLabeling(y, x.rows, x.cols) && LabelsBelow(y, x.depth)
    ensures s < x.depth ==>
      Sum(Selected(LabelList(y, x.rows, x.cols), SelectedUnaries(x, y), s)) == GridCrf.StateEvidence(x, y, s, s)
    ensures s >= x.depth ==> Sum(Selected(LabelList(y, x.rows, x.cols), SelectedUnaries(x, y), s)) == 0.0
  {
    var cells := GridCells(x.rows, x.cols);
    var sel := Selected(LabelList(y, x.rows, x.cols), SelectedUnaries(x, y), s);
    if s < x.depth {
      var terms := seq(|cells|, k requires 0 <= k < |cells| =>
        if y[cells[k].row][cells[k].col] == s then x.values[cells[k].row][cells[k].col][s] else 0.0);
      assert sel == terms;
    } else {
      assert forall k :: 0 <= k < |sel| ==> sel[k] == 0.0;
      SumZero(sel);
    }
  }

  /** Where entry (a, b) of block t sits in a ravelled stack of n-by-n
      blocks: row t * n + a, column b. */
  function StackedPosition(n: nat, t: nat, a: nat, b: nat): nat
  {
    (t * n + a) * n + b
  }

  /** Pairwise entry (a, b) of edge type t of `psi` counts the edges of the
      t-th direction going from a cell labelled a to a cell labelled b; it
      sits after the n_states unary entries. */
  lemma PsiPairwiseEntry(crf: Crf, x: Grid, y: seq<seq<nat>>, t: nat, a: nat, b: nat)
    requires WellShaped(x) && IsLabeling(y, x.rows, x.cols)
    requires LabelsBelow(y, x.depth) && LabelsBelow(y, crf.nStates) && ValidNeighborhood(crf.neighborhood)
    requires t < EdgeTypeCount(crf.neighborhood) && a < crf.nStates && b < crf.nStates
    ensures Psi(crf, x, y).Ok? && t < |Directions(crf.neighborhood)|
    ensures crf.nStates + StackedPosition(crf.nStates, t, a, b) < |Psi(crf, x, y).value|
    ensures EdgesInGrid(Edges(Directions(crf.neighborhood)[t], x.rows, x.cols), x.rows, x.cols)
    ensures Psi(crf, x, y).value[crf.nStates + StackedPosition(crf.nStates, t, a, b)]
         == PairCount(y, x.rows, x.cols, Edges(Directions(crf.neighborhood)[t], x.rows, x.cols), a, b) as real
  {
    PsiValue(crf, x, y);
    var n := crf.nStates;
    var ds := Directions(crf.neighborhood);
    var fs := FeatureList(OneHot(y, x.rows, x.cols, n), ds);
    StackedFeatureAt(fs, n, t, a, b);
    FeatureCountsPairs(y, x.rows, x.cols, n, ds[t], a, b);
  }

  /** Entry (a, b) of block t of a ravelled stack of n-by-n blocks. */
  lemma StackedFeatureAt(fs: seq<Matrix>, n: nat, t: nat, a: nat, b: nat)
    requires forall u :: 0 <= u < |fs| ==> IsMatrix(fs[u], n, n)
    requires t < |fs| && a < n && b < n
    ensures StackedPosition(n, t, a, b) < |Ravel(Stack(fs))|
    ensures a < |fs[t]| && b < |fs[t][a]|
    ensures Ravel(Stack(fs))[StackedPosition(n, t, a, b)] == fs[t][a][b]
  {
    StackAt(fs, n, n, t, a);
    RavelAt(Stack(fs), |fs| * n, n, t * n + a, b);
  }

  /** `w[n_states:].reshape(n_edge_types, n_states, n_states)`: the pairwise
      weight block of each edge type. */
  function PairwiseBlocks(crf: Crf, w: seq<real>): (bs: seq<Matrix>)
    requires |w| == SizePsi(crf)
    ensures |bs| == EdgeTypeCount(crf.neighborhood)
    ensures forall t :: 0 <= t < |bs| ==> IsMatrix(bs[t], crf.nStates, crf.nStates)
  {
    Blocks(w[crf.nStates..], EdgeTypeCount(crf.neighborhood), crf.nStates)
  }

  /** The unary energy of a labelling: for each cell, the unary weight of
      its label times its evidence for that label. */
  function UnaryEnergy(crf: Crf, x: Grid, y: seq<seq<nat>>, w: seq<real>): real
    requires WellShaped(x) && IsLabeling(y, x.rows, x.cols) && LabelsBelow(y, x.depth)
    requires LabelsBelow(y, crf.nStates) && |w| == SizePsi(crf)
  {
    var cells := GridCells(x.rows, x.cols);
    Sum(seq(|cells|, k requires 0 <= k < |cells| => CellEnergy(crf, x, y, w, cells[k])))
  }

  /** The weight of a cell's label times the cell's evidence for that label. */
  function CellEnergy(crf: Crf, x: Grid, y: seq<seq<nat>>, w: seq<real>, c: Cell): real
    requires WellShaped(x) && IsLabeling(y, x.rows, x.cols) && LabelsBelow(y, x.depth)
    requires LabelsBelow(y, crf.nStates) && |w| == SizePsi(crf)
    requires c.row < x.rows && c.col < x.cols
  {
    var l := y[c.row][c.col];
    w[l] * x.values[c.row][c.col][l]
  }

  /** The pairwise energy of a labelling: every edge of the t-th direction
      scored by the t-th weight block at (label of u, label of v). */
  function PairwiseEnergy(crf: Crf, x: Grid, y: seq<seq<nat>>, w: seq<real>): real
    requires WellShaped(x) && IsLabeling(y, x.rows, x.cols) && LabelsBelow(y, crf.nStates)
    requires |w| == SizePsi(crf) && ValidNeighborhood(crf.neighborhood)
  {
    var ds := Directions(crf.neighborhood);
    var bs := PairwiseBlocks(crf, w);
    Sum(seq(|ds|, t requires 0 <= t < |ds| =>
      GridCrf.DirectionEnergy(bs[t], crf.nStates, y, x.rows, x.cols, ds[t])))
  }

  /** The unary part of `psi` scored by the unary weights. */
  lemma UnaryBlockEnergy(crf: Crf, x: Grid, y: seq<seq<nat>>, w: seq<real>)
    requires WellShaped(x) && IsLabeling(y, x.rows, x.cols) && LabelsBelow(y, x.depth)
    requires LabelsBelow(y, crf.nStates) && |w| == SizePsi(crf)
    ensures Dot(w[..crf.nStates], BinCount(LabelList(y, x.rows, x.cols), SelectedUnaries(x, y), crf.nStates))
         == UnaryEnergy(crf, x, y, w)
  {
    var v := w[..crf.nStates];
    var ls, us := LabelList(y, x.rows, x.cols), SelectedUnaries(x, y);
    DotBinCount(v, ls, us);
    var cells := GridCells(x.rows, x.cols);
    var scored := Scored(v, ls, us);
    var energies := seq(|cells|, k requires 0 <= k < |cells| => CellEnergy(crf, x, y, w, cells[k]));
    forall k | 0 <= k < |cells|
      ensures scored[k] == energies[k]
    {
      ScoredCell(crf, x, y, w, k);
    }
    assert scored == energies;
  }

  /** Position k of the scored list is the energy of the k-th cell. */
  lemma ScoredCell(crf: Crf, x: Grid, y: seq<seq<nat>>, w: seq<real>, k: nat)
    requires WellShaped(x) && IsLabeling(y, x.rows, x.cols) && LabelsBelow(y, x.depth)
    requires LabelsBelow(y, crf.nStates) && |w| == SizePsi(crf)
    requires k < x.rows * x.cols
    ensures forall i :: 0 <= i < x.rows * x.cols ==> LabelList(y, x.rows, x.cols)[i] < crf.nStates
    ensures var cells := GridCells(x.rows, x.cols);
      Scored(w[..crf.nStates], LabelList(y, x.rows, x.cols), SelectedUnaries(x, y))[k]
        == CellEnergy(crf, x, y, w, cells[k])
  {
    var cells := GridCells(x.rows, x.cols);
    var ls := LabelList(y, x.rows, x.cols);
    assert forall i :: 0 <= i < |ls| ==> ls[i] == y[cells[i].row][cells[i].col];
  }

  /** The pairwise part of `psi` scored by the pairwise weights. */
  lemma PairwisePartEnergy(crf: Crf, x: Grid, y: seq<seq<nat>>, w: seq<real>)
    requires WellShaped(x) && IsLabeling(y, x.rows, x.cols) && LabelsBelow(y, crf.nStates)
    requires |w| == SizePsi(crf) && ValidNeighborhood(crf.neighborhood)
    ensures |w[crf.nStates..]| == |Ravel(Stack(FeatureList(OneHot(y, x.rows, x.cols, crf.nStates), Directions(crf.neighborhood))))|
    ensures Dot(w[crf.nStates..], Ravel(Stack(FeatureList(OneHot(y, x.rows, x.cols, crf.nStates), Directions(crf.neighborhood)))))
         == PairwiseEnergy(crf, x, y, w)
  {
    var n := crf.nStates;
    var ds := Directions(crf.neighborhood);
    var fs := FeatureList(OneHot(y, x.rows, x.cols, n), ds);
    var bs := PairwiseBlocks(crf, w);
    RavelStackLength(fs, n);
    StackBlocks(w[n..], EdgeTypeCount(crf.neighborhood), n);
    FrobStack(bs, fs, n, n);
    DotRavel(Stack(bs), Stack(fs));
    DirectionTerms(crf, x, y, w);
  }

  /** Each direction's block scored against its feature matrix is that
      direction's edge energy. */
  lemma DirectionTerms(crf: Crf, x: Grid, y: seq<seq<nat>>, w: seq<real>)
    requires WellShaped(x) && IsLabeling(y, x.rows, x.cols) && LabelsBelow(y, crf.nStates)
    requires |w| == SizePsi(crf) && ValidNeighborhood(crf.neighborhood)
    ensures var fs := FeatureList(OneHot(y, x.rows, x.cols, crf.nStates), Directions(crf.neighborhood));
      var bs := PairwiseBlocks(crf, w);
      |fs| == |bs| &&
      Sum(seq(|fs|, t requires 0 <= t < |fs| => Frob(bs[t], fs[t]))) == PairwiseEnergy(crf, x, y, w)
  {
    var n := crf.nStates;
    var ds := Directions(crf.neighborhood);
    var fs := FeatureList(OneHot(y, x.rows, x.cols, n), ds);
    var bs := PairwiseBlocks(crf, w);
    var terms := seq(|fs|, t requires 0 <= t < |fs| => Frob(bs[t], fs[t]));
    var energies := seq(|ds|, t requires 0 <= t < |ds| =>
      GridCrf.DirectionEnergy(bs[t], n, y, x.rows, x.cols, ds[t]));
    forall t | 0 <= t < |ds|
      ensures terms[t] == energies[t]
    {
      FrobFeature(bs[t], n, y, x.rows, x.cols, ds[t]);
    }
    assert terms == energies;
  }

  /** Energy consistency: `np.dot(w, psi(x, y))` is the unary energy plus
      the pairwise energy in which each direction has its own weight block,
      laid out as `w[n_states:].reshape(n_edge_types, n_states, n_states)`. */
  lemma Energy(crf: Crf, x: Grid, y: seq<seq<nat>>, w: seq<real>)
    requires WellShaped(x) && IsLabeling(y, x.rows, x.cols) && |w| == SizePsi(crf)
    requires LabelsBelow(y, x.depth) && LabelsBelow(y, crf.nStates) && ValidNeighborhood(crf.neighborhood)
    ensures Psi(crf, x, y).Ok?
    ensures Dot(w, Psi(crf, x, y).value) == UnaryEnergy(crf, x, y, w) + PairwiseEnergy(crf, x, y, w)
  {
    PsiValue(crf, x, y);
    var n := crf.nStates;
    var unaries := BinCount(LabelList(y, x.rows, x.cols), SelectedUnaries(x, y), n);
    var pairs := Ravel(Stack(FeatureList(OneHot(y, x.rows, x.cols, n), Directions(crf.neighborhood))));
    PairwisePartEnergy(crf, x, y, w);
    UnaryBlockEnergy(crf, x, y, w);
    DotSplit(w, n, unaries, pairs);
  }
}
