/** `GridCRF`: a pairwise conditional random field on a 2-d grid whose
    pairwise potentials are symmetric and shared by all edges.  Its joint
    feature vector `psi(x, y)` is the n_features-by-n_states block of
    evidence accumulated per state, followed by the packed lower triangle
    of the symmetrised label-pair counts; the weight vector unpacks into
    unary and pairwise potentials with the same layout, so that
    `np.dot(w, psi(x, y))` is the energy of labelling `y`. */
module GridCrf {
  import opened Sums
  import opened Matrices
  import opened Grids
  import opened PairwiseFeatures
  import opened Outcomes

  /** A positive count: an axis of length zero makes `reshape(-1, 0)` fail. */
  type Positive = n: nat | n > 0 witness 1

  /** The parameters the model keeps (the inference method is left out). */
  datatype Crf = Crf(nStates: Positive, nFeatures: Positive, neighborhood: int)

  /** `GridCRF(n_states, n_features, neighborhood=...)`: a missing feature
      count means one feature per state. */
  function New(nStates: Positive, nFeatures: Option<Positive>, neighborhood: int): (crf: Crf)
    ensures crf.nStates == nStates && crf.neighborhood == neighborhood
    ensures nFeatures.None? ==> crf.nFeatures == nStates
    ensures nFeatures.Some? ==> crf.nFeatures == nFeatures.value
  {
    Crf(nStates, if nFeatures.Some? then nFeatures.value else nStates, neighborhood)
  }

  /** The number of unary weights, where the pairwise weights begin. */
  function UnaryCount(crf: Crf): nat
  {
    crf.nFeatures * crf.nStates
  }

  /** Unary weight (f, s) sits at position f * n_states + s: the row-major
      order of an n_features-by-n_states block. */
  function UnaryPosition(n: nat, f: nat, s: nat): nat
  {
    f * n + s
  }

  /** `size_psi`: n_states * n_features unary weights and one weight per
      entry of the lower triangle of the symmetric pairwise matrix. */
  function SizePsi(crf: Crf): nat
  {
    UnaryCount(crf) + Tri(crf.nStates)
  }

  /** The closed form of `size_psi`. */
  lemma SizePsiFormula(crf: Crf)
    ensures SizePsi(crf) == crf.nStates * crf.nFeatures + crf.nStates * (crf.nStates + 1) / 2
  {
    TriFormula(crf.nStates);
  }

  /** With the default feature count, `size_psi` is n_states * n_states unary
      weights plus the packed triangle. */
  lemma DefaultSizePsi(nStates: Positive, neighborhood: int)
    ensures 2 * SizePsi(New(nStates, None, neighborhood)) == 2 * nStates * nStates + nStates * (nStates + 1)
  {
    TriFormula(nStates);
  }

  /** `_check_size_x`: the evidence must have `n_features` entries per cell. */
  function CheckSizeX(crf: Crf, x: Grid): (r: Result<Grid>)
    ensures r.Ok? <==> x.depth == crf.nFeatures
    ensures r.Ok? ==> r.value == x
    ensures r.Err? ==> r.error == FeatureCountError(crf.nFeatures, x.depth)
  {
    if x.depth != crf.nFeatures then Err(FeatureCountError(crf.nFeatures, x.depth)) else Ok(x)
  }

  /** The second argument of `psi`: an integral label grid, or the tuple
      (unary marginals, edge marginals) of a relaxed solution. */
  datatype Labeling =
    | Integral(y: seq<seq<nat>>)
    | Relaxed(unaryMarginals: Grid, edgeMarginals: seq<Matrix>)

  /** The shapes `psi` expects: labels or unary marginals over the grid of
      `x`, and one n_states-by-n_states matrix per edge. */
  predicate LabelingFits(crf: Crf, x: Grid, lab: Labeling)
  {
    match lab
    case Integral(y) => IsLabeling(y, x.rows, x.cols)
    case Relaxed(mu, pm) =>
      && WellShaped(mu) && mu.rows == x.rows && mu.cols == x.cols && mu.depth == crf.nStates
      && forall t :: 0 <= t < |pm| ==> IsMatrix(pm[t], crf.nStates, crf.nStates)
  }

  /** Whether `x_flat * unary_marginals`, a (cells, n_features) array times
      a (cells, n_states) array, broadcasts: the last axes agree or one of
      them is 1. */
  predicate Broadcastable(crf: Crf)
  {
    crf.nFeatures == crf.nStates || crf.nFeatures == 1 || crf.nStates == 1
  }

  /** `np.dot(x_flat.T, marginals.reshape(-1, n_states))`: entry [f][s] adds
      up feature f of every cell, weighted by the cell's marginal of s. */
  function UnaryFeatures(x: Grid, mu: Grid): (u: Matrix)
    requires WellShaped(x) && WellShaped(mu) && mu.rows == x.rows && mu.cols == x.cols
    ensures IsMatrix(u, x.depth, mu.depth)
  {
    MatMulTN(Flatten(x), Flatten(mu), x.depth, mu.depth)
  }

  /** `np.hstack([unaries_acc.ravel(), sym[np.tri(n_states)]])` where `sym`
      is the symmetrised pairwise matrix. */
  function Assemble(x: Grid, mu: Grid, pw: Matrix, n: nat): (v: seq<real>)
    requires WellShaped(x) && WellShaped(mu) && mu.rows == x.rows && mu.cols == x.cols && mu.depth == n
    requires IsMatrix(pw, n, n)
    ensures |v| == x.depth * n + Tri(n)
  {
    RavelLength(UnaryFeatures(x, mu), x.depth, n);
    Ravel(UnaryFeatures(x, mu)) + LowerTriangle(Symmetrize(pw, n), n)
  }

  /** `GridCRF.psi(x, y)`.  The feature count is checked first; an integral
      labeling is then one-hot encoded (a label outside the states fails)
      and its pair counts summed over all edge directions (an unknown
      neighborhood fails); a relaxed labeling brings its own marginals,
      fails when they do not broadcast against x's features, and never
      consults the neighborhood. */
  function Psi(crf: Crf, x: Grid, lab: Labeling): (r: Result<seq<real>>)
    requires WellShaped(x) && LabelingFits(crf, x, lab)
    ensures r.Ok? ==> |r.value| == SizePsi(crf)
    ensures x.depth != crf.nFeatures ==> r == Err(FeatureCountError(crf.nFeatures, x.depth))
    ensures x.depth == crf.nFeatures && lab.Relaxed? ==>
      (r.Ok? <==> Broadcastable(crf)) && (r.Err? ==> r.error == BroadcastError)
    ensures x.depth == crf.nFeatures && lab.Integral? && !LabelsBelow(lab.y, crf.nStates) ==>
      r == Err(LabelOutOfRange)
    ensures x.depth == crf.nFeatures && lab.Integral? && LabelsBelow(lab.y, crf.nStates) ==>
      (r.Ok? <==> ValidNeighborhood(crf.neighborhood)) && (r.Err? ==> r.error == NeighborhoodError)
  {
    match CheckSizeX(crf, x)
    case Err(e) => Err(e)
    case Ok(_) =>
      var n := crf.nStates;
      match lab
      case Relaxed(mu, pm) =>
        if !Broadcastable(crf) then Err(BroadcastError)
        else Ok(Assemble(x, mu, SumMatrices(pm, n, n), n))
      case Integral(y) =>
        if !LabelsBelow(y, n) then Err(LabelOutOfRange)
        else
          var oneHot := OneHot(y, x.rows, x.cols, n);
          match GridFeatures(oneHot, crf.neighborhood)
          case Err(e) => Err(e)
          case Ok(fs) => Ok(Assemble(x, oneHot, SumMatrices(fs, n, n), n))
  }

  /** `w[:n_states * n_features].reshape(n_features, n_states)`. */
  function UnaryWeights(crf: Crf, w: seq<real>): (m: Matrix)
    requires |w| == SizePsi(crf)
    ensures IsMatrix(m, crf.nFeatures, crf.nStates)
  {
    Reshape(w[..UnaryCount(crf)], crf.nFeatures, crf.nStates)
  }

  /** Row c of `np.dot(x.reshape(-1, n_features), W)` put back at cell c. */
  function UnaryTable(crf: Crf, x: Grid, w: seq<real>): (u: Grid)
    requires WellShaped(x) && x.depth == crf.nFeatures && |w| == SizePsi(crf)
    ensures WellShaped(u) && u.rows == x.rows && u.cols == x.cols && u.depth == crf.nStates
  {
    var m := UnaryWeights(crf, w);
    Grid(x.rows, x.cols, crf.nStates,
         seq(x.rows, i requires 0 <= i < x.rows =>
           seq(x.cols, j requires 0 <= j < x.cols => VecMat(x.values[i][j], m, crf.nStates))))
  }

  /** `get_unary_potentials(x, w)`: an error when x has the wrong feature
      count; otherwise a (rows, cols, n_states) grid of potentials. */
  function UnaryPotentials(crf: Crf, x: Grid, w: seq<real>): (r: Result<Grid>)
    requires WellShaped(x) && |w| == SizePsi(crf)
    ensures r.Ok? <==> x.depth == crf.nFeatures
    ensures r.Err? ==> r.error == FeatureCountError(crf.nFeatures, x.depth)
    ensures r.Ok? ==> WellShaped(r.value) && r.value.rows == x.rows && r.value.cols == x.cols
                      && r.value.depth == crf.nStates
  {
    match CheckSizeX(crf, x)
    case Err(e) => Err(e)
    case Ok(_) => Ok(UnaryTable(crf, x, w))
  }

  /** Unary weight (f, s) lies inside the unary block. */
  lemma UnaryIndexBound(crf: Crf, f: nat, s: nat)
    requires f < crf.nFeatures && s < crf.nStates
    ensures UnaryPosition(crf.nStates, f, s) < UnaryCount(crf)
  {
    assert f * crf.nStates + s < (f + 1) * crf.nStates;
    assert (f + 1) * crf.nStates <= crf.nFeatures * crf.nStates;
  }

  /** Unary weight (f, s) is `w[f * n_states + s]`. */
  lemma UnaryWeightAt(crf: Crf, w: seq<real>, f: nat, s: nat)
    requires |w| == SizePsi(crf) && f < crf.nFeatures && s < crf.nStates
    ensures UnaryPosition(crf.nStates, f, s) < UnaryCount(crf)
    ensures UnaryWeights(crf, w)[f][s] == w[UnaryPosition(crf.nStates, f, s)]
  {
    ReshapeAt(w[..UnaryCount(crf)], crf.nFeatures, crf.nStates, f, s);
  }

  /** The unary potential of state s at a cell is the cell's evidence
      weighted by the unary weights of s: feature f meets unary weight
      (f, s). */
  lemma UnaryPotentialAt(crf: Crf, x: Grid, w: seq<real>, i: nat, j: nat, s: nat)
    requires WellShaped(x) && x.depth == crf.nFeatures && |w| == SizePsi(crf)
    requires i < x.rows && j < x.cols && s < crf.nStates
    ensures UnaryPotentials(crf, x, w).Ok?
    ensures UnaryPotentials(crf, x, w).value.values[i][j][s]
         == Sum(seq(crf.nFeatures, f requires 0 <= f < crf.nFeatures =>
              x.values[i][j][f] * UnaryWeights(crf, w)[f][s]))
  {
    assert UnaryPotentials(crf, x, w) == Ok(UnaryTable(crf, x, w));
    var m := UnaryWeights(crf, w);
    var u := x.values[i][j];
    var col := Column(m, s);
    var viaColumn := seq(|u|, f requires 0 <= f < |u| => u[f] * col[f]);
    var viaEntry := seq(crf.nFeatures, f requires 0 <= f < crf.nFeatures => u[f] * m[f][s]);
    assert UnaryTable(crf, x, w).values[i][j] == VecMat(u, m, crf.nStates);
    assert VecMat(u, m, crf.nStates)[s] == Dot(u, col) == Sum(viaColumn);
    forall f | 0 <= f < crf.nFeatures
      ensures viaColumn[f] == viaEntry[f]
    {
    }
    assert viaColumn == viaEntry;
  }

  /** The pairwise weights `w[n_states * n_features:]` written into the lower
      triangle of an n_states-by-n_states matrix and symmetrised. */
  function PairwiseTable(crf: Crf, w: seq<real>): (p: Matrix)
    requires |w| == SizePsi(crf)
    ensures IsMatrix(p, crf.nStates, crf.nStates)
  {
    Symmetrize(FromLowerTriangle(w[UnaryCount(crf)..], crf.nStates), crf.nStates)
  }

  /** `get_pairwise_potentials(x, w)`: an error when x has the wrong feature
      count; otherwise the symmetric matrix whose packed lower triangle is
      the pairwise part of `w`. */
  function PairwisePotentials(crf: Crf, x: Grid, w: seq<real>): (r: Result<Matrix>)
    requires |w| == SizePsi(crf)
    ensures r.Ok? <==> x.depth == crf.nFeatures
    ensures r.Err? ==> r.error == FeatureCountError(crf.nFeatures, x.depth)
    ensures r.Ok? ==> IsMatrix(r.value, crf.nStates, crf.nStates) && IsSymmetric(r.value, crf.nStates)
    ensures r.Ok? ==> LowerTriangle(r.value, crf.nStates) == w[UnaryCount(crf)..]
  {
    match CheckSizeX(crf, x)
    case Err(e) => Err(e)
    case Ok(_) =>
      var flat := w[UnaryCount(crf)..];
      SymmetrizeKeepsLowerTriangle(FromLowerTriangle(flat, crf.nStates), crf.nStates);
      PackUnpack(flat, crf.nStates);
      Ok(PairwiseTable(crf, w))
  }

  /** The converse round trip: a weight vector whose pairwise part packs a
      symmetric matrix unpacks to that matrix. */
  lemma PairwisePotentialsOfPacked(crf: Crf, x: Grid, unary: seq<real>, s: Matrix)
    requires x.depth == crf.nFeatures && |unary| == UnaryCount(crf)
    requires IsMatrix(s, crf.nStates, crf.nStates) && IsSymmetric(s, crf.nStates)
    ensures |unary + LowerTriangle(s, crf.nStates)| == SizePsi(crf)
    ensures PairwisePotentials(crf, x, unary + LowerTriangle(s, crf.nStates)) == Ok(s)
  {
    var w := unary + LowerTriangle(s, crf.nStates);
    assert w[UnaryCount(crf)..] == LowerTriangle(s, crf.nStates);
    SymmetricFromLowerTriangle(s, crf.nStates);
  }

  /** The masked write as the source performs it: zero an n-by-n buffer,
      then copy the pairwise weights into the lower triangle row by row;
      the result is symmetrised as `p + p.T - diag(diag(p))`. */
  method PairwisePotentialsInPlace(crf: Crf, x: Grid, w: seq<real>) returns (r: Result<Matrix>)
    requires |w| == SizePsi(crf)
    ensures r == PairwisePotentials(crf, x, w)
  {
    if x.depth != crf.nFeatures {
      return Err(FeatureCountError(crf.nFeatures, x.depth));
    }
    var n := crf.nStates;
    var flat := w[UnaryCount(crf)..];
    var p := new real[n, n]((i, j) => 0.0);
    var i := 0;
    while i < n
      invariant 0 <= i <= n
      invariant forall a, b :: 0 <= a < n && 0 <= b < n ==>
        p[a, b] == if b <= a < i then (TriPosition(a, b, n); flat[Tri(a) + b]) else 0.0
    {
      var j := 0;
      while j <= i
        invariant 0 <= j <= i + 1
        invariant forall a, b :: 0 <= a < n && 0 <= b < n ==>
          p[a, b] == if b <= a && (a < i || (a == i && b < j)) then (TriPosition(a, b, n); flat[Tri(a) + b]) else 0.0
      {
        TriPosition(i, j, n);
        p[i, j] := flat[Tri(i) + j];
        j := j + 1;
      }
      i := i + 1;
    }
    var lower := seq(n, a requires 0 <= a < n reads p => seq(n, b requires 0 <= b < n reads p => p[a, b]));
    var expected := FromLowerTriangle(flat, n);
    forall a | 0 <= a < n
      ensures lower[a] == expected[a]
    {
      assert forall b :: 0 <= b < n ==> lower[a][b] == expected[a][b];
    }
    assert lower == expected;
    r := Ok(Symmetrize(lower, n));
  }

  /** The sum over the cells of `u[cell][y[cell]]`: the unary energy of
      labelling `y`. */
  function UnaryEnergy(u: Grid, y: seq<seq<nat>>): real
    requires WellShaped(u) && IsLabeling(y, u.rows, u.cols) && LabelsBelow(y, u.depth)
  {
    var cells := GridCells(u.rows, u.cols);
    Sum(seq(|cells|, k requires 0 <= k < |cells| =>
      u.values[cells[k].row][cells[k].col][y[cells[k].row][cells[k].col]]))
  }

  /** The sum over the cells of the potentials weighted by the marginals:
      the expected unary energy of a relaxed labelling. */
  function MarginalEnergy(u: Grid, mu: Grid): real
    requires WellShaped(u) && WellShaped(mu) && u.rows == mu.rows && u.cols == mu.cols
    requires u.depth == mu.depth
  {
    var cells := GridCells(u.rows, u.cols);
    Sum(seq(|cells|, k requires 0 <= k < |cells| =>
      Dot(u.values[cells[k].row][cells[k].col], mu.values[cells[k].row][cells[k].col])))
  }

  /** The sum over the edges of direction `d` of `p[label of u][label of v]`. */
  function DirectionEnergy(p: Matrix, n: nat, y: seq<seq<nat>>, rows: nat, cols: nat, d: Direction): real
    requires IsMatrix(p, n, n) && IsLabeling(y, rows, cols) && LabelsBelow(y, n)
  {
    EdgesStayInGrid(d, rows, cols);
    EdgeSum(p, n, y, rows, cols, Edges(d, rows, cols))
  }

  /** The pairwise energy of labelling `y`: `p[label of u][label of v]` over
      every edge of every direction in `ds`. */
  function PairwiseEnergy(p: Matrix, n: nat, y: seq<seq<nat>>, rows: nat, cols: nat, ds: seq<Direction>): real
    requires IsMatrix(p, n, n) && IsLabeling(y, rows, cols) && LabelsBelow(y, n)
  {
    Sum(seq(|ds|, t requires 0 <= t < |ds| => DirectionEnergy(p, n, y, rows, cols, ds[t])))
  }

  /** The unary block of `psi` scores the marginals with the unary
      potentials. */
  lemma UnaryBlockEnergy(crf: Crf, x: Grid, mu: Grid, w: seq<real>)
    requires WellShaped(x) && x.depth == crf.nFeatures && |w| == SizePsi(crf)
    requires WellShaped(mu) && mu.rows == x.rows && mu.cols == x.cols && mu.depth == crf.nStates
    ensures |Ravel(UnaryFeatures(x, mu))| == UnaryCount(crf)
    ensures Dot(w[..UnaryCount(crf)], Ravel(UnaryFeatures(x, mu))) == MarginalEnergy(UnaryTable(crf, x, w), mu)
  {
    var k, n := crf.nFeatures, crf.nStates;
    var m := UnaryWeights(crf, w);
    var xs, ms := Flatten(x), Flatten(mu);
    var u := UnaryTable(crf, x, w);
    RavelLength(UnaryFeatures(x, mu), k, n);
    RavelReshape(w[..UnaryCount(crf)], k, n);
    DotRavel(m, UnaryFeatures(x, mu));
    FrobMatMul(m, xs, ms, k, n);
    var cells := GridCells(x.rows, x.cols);
    var terms := seq(|xs|, c requires 0 <= c < |xs| => Frob(m, Outer(xs[c], ms[c])));
    var energies := seq(|cells|, c requires 0 <= c < |cells| =>
      Dot(u.values[cells[c].row][cells[c].col], mu.values[cells[c].row][cells[c].col]));
    forall c | 0 <= c < |xs|
      ensures terms[c] == energies[c]
    {
      VecMatOuter(xs[c], m, ms[c]);
    }
    assert terms == energies;
  }

  /** The pairwise block of `psi` scores the pairwise matrix with the
      pairwise potentials. */
  lemma PairwiseBlockEnergy(crf: Crf, w: seq<real>, pw: Matrix)
    requires |w| == SizePsi(crf) && IsMatrix(pw, crf.nStates, crf.nStates)
    ensures |w[UnaryCount(crf)..]| == Tri(crf.nStates)
    ensures Dot(w[UnaryCount(crf)..], LowerTriangle(Symmetrize(pw, crf.nStates), crf.nStates))
         == Frob(PairwiseTable(crf, w), pw)
  {
    var n := crf.nStates;
    var flat := w[UnaryCount(crf)..];
    var l := FromLowerTriangle(flat, n);
    PackUnpack(flat, n);
    DotLowerTriangle(l, Symmetrize(pw, n), n);
    FrobSymmetrize(l, pw, n);
  }

  /** `np.dot(w, psi)` splits into the unary and the pairwise block. */
  lemma AssembleEnergy(crf: Crf, x: Grid, mu: Grid, pw: Matrix, w: seq<real>)
    requires WellShaped(x) && x.depth == crf.nFeatures && |w| == SizePsi(crf)
    requires WellShaped(mu) && mu.rows == x.rows && mu.cols == x.cols && mu.depth == crf.nStates
    requires IsMatrix(pw, crf.nStates, crf.nStates)
    ensures |Assemble(x, mu, pw, crf.nStates)| == |w|
    ensures Dot(w, Assemble(x, mu, pw, crf.nStates))
         == MarginalEnergy(UnaryTable(crf, x, w), mu) + Frob(PairwiseTable(crf, w), pw)
  {
    var n := crf.nStates;
    UnaryBlockEnergy(crf, x, mu, w);
    PairwiseBlockEnergy(crf, w, pw);
    assert w == w[..UnaryCount(crf)] + w[UnaryCount(crf)..];
    DotConcat(w[..UnaryCount(crf)], w[UnaryCount(crf)..],
              Ravel(UnaryFeatures(x, mu)), LowerTriangle(Symmetrize(pw, n), n));
  }

  /** With one-hot marginals, the expected unary energy is the unary energy
      of the labelling. */
  lemma OneHotMarginalEnergy(u: Grid, y: seq<seq<nat>>)
    requires WellShaped(u) && IsLabeling(y, u.rows, u.cols) && LabelsBelow(y, u.depth)
    ensures MarginalEnergy(u, OneHot(y, u.rows, u.cols, u.depth)) == UnaryEnergy(u, y)
  {
    var mu := OneHot(y, u.rows, u.cols, u.depth);
    var cells := GridCells(u.rows, u.cols);
    var dots := seq(|cells|, k requires 0 <= k < |cells| =>
      Dot(u.values[cells[k].row][cells[k].col], mu.values[cells[k].row][cells[k].col]));
    var picks := seq(|cells|, k requires 0 <= k < |cells| =>
      u.values[cells[k].row][cells[k].col][y[cells[k].row][cells[k].col]]);
    forall k | 0 <= k < |cells|
      ensures dots[k] == picks[k]
    {
      var c := cells[k];
      DotBasis(u.values[c.row][c.col], y[c.row][c.col]);
    }
    assert dots == picks;
  }

  /** The summed pair counts of the directions in `ds`, weighted by `p`, add
      up `p` over the edges of those directions. */
  lemma SummedFeaturesEnergy(p: Matrix, n: nat, y: seq<seq<nat>>, rows: nat, cols: nat, ds: seq<Direction>)
    requires IsMatrix(p, n, n) && IsLabeling(y, rows, cols) && LabelsBelow(y, n)
    ensures Frob(p, SumMatrices(FeatureList(OneHot(y, rows, cols, n), ds), n, n))
         == PairwiseEnergy(p, n, y, rows, cols, ds)
  {
    var fs := FeatureList(OneHot(y, rows, cols, n), ds);
    FrobSumMatrices(p, fs, n, n);
    var terms := seq(|fs|, t requires 0 <= t < |fs| => Frob(p, fs[t]));
    var energies := seq(|ds|, t requires 0 <= t < |ds| => DirectionEnergy(p, n, y, rows, cols, ds[t]));
    forall t | 0 <= t < |ds|
      ensures terms[t] == energies[t]
    {
      FrobFeature(p, n, y, rows, cols, ds[t]);
    }
    assert terms == energies;
  }

  /** Energy consistency: for an integral labelling, `np.dot(w, psi(x, y))`
      is the sum over the cells of the unary potential of the cell's label
      plus the sum over every grid edge (u, v) of the pairwise potential of
      (label of u, label of v). */
  lemma Energy(crf: Crf, x: Grid, y: seq<seq<nat>>, w: seq<real>)
    requires WellShaped(x) && IsLabeling(y, x.rows, x.cols) && |w| == SizePsi(crf)
    requires x.depth == crf.nFeatures && LabelsBelow(y, crf.nStates) && ValidNeighborhood(crf.neighborhood)
    ensures Psi(crf, x, Integral(y)).Ok?
    ensures UnaryPotentials(crf, x, w).Ok? && PairwisePotentials(crf, x, w).Ok?
    ensures Dot(w, Psi(crf, x, Integral(y)).value)
         == UnaryEnergy(UnaryPotentials(crf, x, w).value, y)
          + PairwiseEnergy(PairwisePotentials(crf, x, w).value, crf.nStates, y, x.rows, x.cols,
                           Directions(crf.neighborhood))
  {
    var n := crf.nStates;
    var oneHot := OneHot(y, x.rows, x.cols, n);
    var fs := FeatureList(oneHot, Directions(crf.neighborhood));
    assert GridFeatures(oneHot, crf.neighborhood) == Ok(fs);
    AssembleEnergy(crf, x, oneHot, SumMatrices(fs, n, n), w);
    OneHotMarginalEnergy(UnaryTable(crf, x, w), y);
    SummedFeaturesEnergy(PairwiseTable(crf, w), n, y, x.rows, x.cols, Directions(crf.neighborhood));
  }

  /** Energy consistency for a relaxed labelling: `np.dot(w, psi(x, y))` is
      the expected unary energy under the unary marginals plus the pairwise
      potentials weighted by the summed edge marginals. */
  lemma RelaxedEnergy(crf: Crf, x: Grid, mu: Grid, pm: seq<Matrix>, w: seq<real>)
    requires WellShaped(x) && x.depth == crf.nFeatures && |w| == SizePsi(crf) && Broadcastable(crf)
    requires LabelingFits(crf, x, Relaxed(mu, pm))
    ensures Psi(crf, x, Relaxed(mu, pm)).Ok?
    ensures UnaryPotentials(crf, x, w).Ok? && PairwisePotentials(crf, x, w).Ok?
    ensures Dot(w, Psi(crf, x, Relaxed(mu, pm)).value)
         == MarginalEnergy(UnaryPotentials(crf, x, w).value, mu)
          + Sum(seq(|pm|, t requires 0 <= t < |pm| => Frob(PairwisePotentials(crf, x, w).value, pm[t])))
  {
    var n := crf.nStates;
    AssembleEnergy(crf, x, mu, SumMatrices(pm, n, n), w);
    FrobSumMatrices(PairwiseTable(crf, w), pm, n, n);
  }

  /** The value of `psi` on an integral labelling, assembled from the one-hot
      grid and the summed features of the neighborhood's directions. */
  lemma PsiIntegralValue(crf: Crf, x: Grid, y: seq<seq<nat>>)
    requires WellShaped(x) && IsLabeling(y, x.rows, x.cols)
    requires x.depth == crf.nFeatures && LabelsBelow(y, crf.nStates) && ValidNeighborhood(crf.neighborhood)
    ensures Psi(crf, x, Integral(y)).Ok?
    ensures Psi(crf, x, Integral(y)).value
         == Assemble(x, OneHot(y, x.rows, x.cols, crf.nStates),
                     SumMatrices(FeatureList(OneHot(y, x.rows, x.cols, crf.nStates), Directions(crf.neighborhood)),
                                 crf.nStates, crf.nStates),
                     crf.nStates)
  {
    var oneHot := OneHot(y, x.rows, x.cols, crf.nStates);
    assert GridFeatures(oneHot, crf.neighborhood) == Ok(FeatureList(oneHot, Directions(crf.neighborhood)));
  }

  /** The evidence of feature f accumulated over the cells labelled s. */
  function StateEvidence(x: Grid, y: seq<seq<nat>>, f: nat, s: nat): real
    requires WellShaped(x) && IsLabeling(y, x.rows, x.cols) && f < x.depth
  {
    var cells := GridCells(x.rows, x.cols);
    Sum(seq(|cells|, k requires 0 <= k < |cells| =>
      if y[cells[k].row][cells[k].col] == s then x.values[cells[k].row][cells[k].col][f] else 0.0))
  }

  /** Where the unary block sits in the assembled vector. */
  lemma AssembleUnaryAt(x: Grid, mu: Grid, pw: Matrix, n: nat, f: nat, s: nat)
    requires WellShaped(x) && WellShaped(mu) && mu.rows == x.rows && mu.cols == x.cols && mu.depth == n
    requires IsMatrix(pw, n, n) && f < x.depth && s < n
    ensures UnaryPosition(n, f, s) < x.depth * n
    ensures Assemble(x, mu, pw, n)[UnaryPosition(n, f, s)] == UnaryFeatures(x, mu)[f][s]
  {
    RavelAt(UnaryFeatures(x, mu), x.depth, n, f, s);
  }

  /** Where the packed lower triangle sits in the assembled vector. */
  lemma AssemblePairwiseAt(x: Grid, mu: Grid, pw: Matrix, n: nat, i: nat, j: nat)
    requires WellShaped(x) && WellShaped(mu) && mu.rows == x.rows && mu.cols == x.cols && mu.depth == n
    requires IsMatrix(pw, n, n) && j <= i < n
    ensures x.depth * n + Tri(i) + j < |Assemble(x, mu, pw, n)|
    ensures Assemble(x, mu, pw, n)[x.depth * n + Tri(i) + j] == Symmetrize(pw, n)[i][j]
  {
    RavelLength(UnaryFeatures(x, mu), x.depth, n);
    LowerTriangleAt(Symmetrize(pw, n), n, i, j);
  }

  /** Against one-hot marginals, unary feature (f, s) is feature f summed
      over the cells labelled s. */
  lemma UnaryFeaturesOneHot(x: Grid, y: seq<seq<nat>>, n: nat, f: nat, s: nat)
    requires WellShaped(x) && IsLabeling(y, x.rows, x.cols) && f < x.depth && s < n
    ensures UnaryFeatures(x, OneHot(y, x.rows, x.cols, n))[f][s] == StateEvidence(x, y, f, s)
  {
    var oneHot := OneHot(y, x.rows, x.cols, n);
    var xs, ms := Flatten(x), Flatten(oneHot);
    var cells := GridCells(x.rows, x.cols);
    var colX, colM := Column(xs, f), Column(ms, s);
    var products := seq(|xs|, c requires 0 <= c < |xs| => colX[c] * colM[c]);
    var picked := seq(|cells|, k requires 0 <= k < |cells| =>
      if y[cells[k].row][cells[k].col] == s then x.values[cells[k].row][cells[k].col][f] else 0.0);
    forall c | 0 <= c < |xs|
      ensures products[c] == picked[c]
    {
      OneHotWindow(y, x.rows, x.cols, n, Slice(0, x.rows, 0, x.cols), c);
    }
    assert products == picked;
  }

  /** Entry f * n_states + s of `psi` is feature f summed over the cells
      labelled s. */
  lemma PsiUnaryEntry(crf: Crf, x: Grid, y: seq<seq<nat>>, f: nat, s: nat)
    requires WellShaped(x) && IsLabeling(y, x.rows, x.cols)
    requires x.depth == crf.nFeatures && LabelsBelow(y, crf.nStates) && ValidNeighborhood(crf.neighborhood)
    requires f < crf.nFeatures && s < crf.nStates
    ensures Psi(crf, x, Integral(y)).Ok?
    ensures UnaryPosition(crf.nStates, f, s) < UnaryCount(crf) <= |Psi(crf, x, Integral(y)).value|
    ensures Psi(crf, x, Integral(y)).value[UnaryPosition(crf.nStates, f, s)] == StateEvidence(x, y, f, s)
  {
    PsiIntegralValue(crf, x, y);
    UnaryIndexBound(crf, f, s);
    var n := crf.nStates;
    var oneHot := OneHot(y, x.rows, x.cols, n);
    var pw := SumMatrices(FeatureList(oneHot, Directions(crf.neighborhood)), n, n);
    AssembleOneHotUnary(x, y, pw, n, f, s);
  }

  /** The unary block assembled against one-hot marginals. */
  lemma AssembleOneHotUnary(x: Grid, y: seq<seq<nat>>, pw: Matrix, n: nat, f: nat, s: nat)
    requires WellShaped(x) && IsLabeling(y, x.rows, x.cols)
    requires IsMatrix(pw, n, n) && f < x.depth && s < n
    ensures UnaryPosition(n, f, s) < |Assemble(x, OneHot(y, x.rows, x.cols, n), pw, n)|
    ensures Assemble(x, OneHot(y, x.rows, x.cols, n), pw, n)[UnaryPosition(n, f, s)] == StateEvidence(x, y, f, s)
  {
    AssembleUnaryAt(x, OneHot(y, x.rows, x.cols, n), pw, n, f, s);
    UnaryFeaturesOneHot(x, y, n, f, s);
  }

  /** The number of edges, over the directions `ds`, going from a cell
      labelled a to a cell labelled b. */
  function TotalPairCount(y: seq<seq<nat>>, rows: nat, cols: nat, ds: seq<Direction>, a: nat, b: nat): real
    requires IsLabeling(y, rows, cols)
  {
    Sum(seq(|ds|, t requires 0 <= t < |ds| =>
      (EdgesStayInGrid(ds[t], rows, cols); PairCount(y, rows, cols, Edges(ds[t], rows, cols), a, b) as real)))
  }

  /** Entry (a, b) of the summed features of `ds` on a one-hot grid counts
      the (a, b) edges of all those directions. */
  lemma SummedFeaturesAt(y: seq<seq<nat>>, rows: nat, cols: nat, n: nat, ds: seq<Direction>, a: nat, b: nat)
    requires IsLabeling(y, rows, cols) && LabelsBelow(y, n) && a < n && b < n
    ensures SumMatrices(FeatureList(OneHot(y, rows, cols, n), ds), n, n)[a][b]
         == TotalPairCount(y, rows, cols, ds, a, b)
  {
    var fs := FeatureList(OneHot(y, rows, cols, n), ds);
    SumMatricesAt(fs, n, n, a, b);
    var entries := seq(|fs|, t requires 0 <= t < |fs| => fs[t][a][b]);
    var counts := seq(|ds|, t requires 0 <= t < |ds| =>
      (EdgesStayInGrid(ds[t], rows, cols); PairCount(y, rows, cols, Edges(ds[t], rows, cols), a, b) as real));
    forall t | 0 <= t < |ds|
      ensures entries[t] == counts[t]
    {
      FeatureCountsPairs(y, rows, cols, n, ds[t], a, b);
    }
    assert entries == counts;
  }

  /** The pairwise part of `psi` lists, for j <= i in row-major order, the
      number of edges whose endpoints carry labels i and j in either order
      (each edge with two equal labels counted once). */
  lemma PsiPairwiseEntry(crf: Crf, x: Grid, y: seq<seq<nat>>, i: nat, j: nat)
    requires WellShaped(x) && IsLabeling(y, x.rows, x.cols)
    requires x.depth == crf.nFeatures && LabelsBelow(y, crf.nStates) && ValidNeighborhood(crf.neighborhood)
    requires j <= i < crf.nStates
    ensures Psi(crf, x, Integral(y)).Ok?
    ensures UnaryCount(crf) + Tri(i) + j < |Psi(crf, x, Integral(y)).value|
    ensures Psi(crf, x, Integral(y)).value[UnaryCount(crf) + Tri(i) + j]
         == var ds := Directions(crf.neighborhood);
            if i == j then TotalPairCount(y, x.rows, x.cols, ds, i, i)
            else TotalPairCount(y, x.rows, x.cols, ds, i, j) + TotalPairCount(y, x.rows, x.cols, ds, j, i)
  {
    PsiIntegralValue(crf, x, y);
    var n := crf.nStates;
    var oneHot := OneHot(y, x.rows, x.cols, n);
    var ds := Directions(crf.neighborhood);
    var pw := SumMatrices(FeatureList(oneHot, ds), n, n);
    AssemblePairwiseAt(x, oneHot, pw, n, i, j);
    SummedFeaturesAt(y, x.rows, x.cols, n, ds, i, j);
    SummedFeaturesAt(y, x.rows, x.cols, n, ds, j, i);
  }

  /** `psi` as the source computes it on an integral labelling: fill the
      one-hot buffer, append the per-direction features to a list, sum
      them, and stack the two blocks. */
  method ComputePsi(crf: Crf, x: Grid, y: seq<seq<nat>>) returns (r: Result<seq<real>>)
    requires WellShaped(x) && IsLabeling(y, x.rows, x.cols)
    ensures r == Psi(crf, x, Integral(y))
  {
    if x.depth != crf.nFeatures {
      return Err(FeatureCountError(crf.nFeatures, x.depth));
    }
    var n := crf.nStates;
    if !LabelsBelow(y, n) {
      return Err(LabelOutOfRange);
    }
    var oneHot := OneHotEncode(y, x.rows, x.cols, n);
    var features := PairwiseGridFeatures(oneHot, crf.neighborhood);
    if features.Err? {
      return Err(features.error);
    }
    var pw := SumMatrices(features.value, n, n);
    r := Ok(Assemble(x, oneHot, pw, n));
  }
}
