# Grid CRF joint features, modelled in Dafny

This project models the grid conditional random fields of pystruct's
`problems/grid_crf.py`:

- **`pairwise_grid_features`.** Given a one-hot label grid, it builds one
  n_states-by-n_states count matrix per edge direction: right and down, and
  for the 8-neighborhood also up-right and down-right.
- **`GridCRF`.** Its joint feature vector `psi(x, y)` is the
  n_features-by-n_states block of evidence accumulated per state, ravelled.
  That block is followed by the lower triangle of the symmetrised pair counts,
  packed in the row-major order of `np.tri`. The weight vector `w` unpacks into
  unary potentials (`get_unary_potentials`) and a symmetric pairwise matrix
  (`get_pairwise_potentials`) with the same layout.
- **`DirectionalGridCRF`.** Its feature vector is one accumulated evidence
  entry per state. It is followed by the unsymmetrised count matrices of every
  direction, stacked and ravelled.

The source computes with float64 arrays, whose `np.dot` and `np.sum` round.
The model uses exact Dafny `real`s instead, so its identities, such as the
energy equation, hold exactly in the model. In the program they hold only up
to rounding.

Files:

| file | module | what it holds |
|---|---|---|
| `sums.dfy` | `Sums` | sums and dot products of `seq<real>` and their algebra |
| `matrices.dfy` | `Matrices` | matrices as `seq<seq<real>>`, modelling `np.dot(a.T, b)`, `np.sum(axis=0)`, `np.vstack`, `ravel`/`reshape`, `pw + pw.T - diag`, `np.tri` packing and the masked write |
| `outcomes.dfy` | `Outcomes` | the errors the source raises, a result type and an option type |
| `grids.dfy` | `Grids` | (rows, cols, depth) arrays, label grids, slices in `reshape(-1, depth)` order, and the one-hot encoding as a function and as an in-place fill over an `array3` |
| `pairwise_features.dfy` | `PairwiseFeatures` | `pairwise_grid_features`, grid edges and label-pair counts |
| `grid_crf.dfy` | `GridCrf` | `GridCRF`: `size_psi`, `_check_size_x`, `psi`, and the unary and pairwise potentials |
| `directional_grid_crf.dfy` | `DirectionalGridCrf` | `DirectionalGridCRF`: `size_psi`, `np.bincount` and the integral `psi` |

The source raises `ValueError`, and numpy raises `IndexError`. These are modelled
as `Outcomes.Result` values:

- `NeighborhoodError` is returned for a neighborhood other than 4 or 8.
- `FeatureCountError(expected, got)` is returned by `_check_size_x`.
- `LabelOutOfRange` is returned for a label that is not an index into the states.
- `BroadcastError` is returned by the relaxed branch of `GridCRF.psi` when `x_flat * unary_marginals` cannot broadcast. That happens when n_features and n_states differ and neither is 1.

The errors come in the order the source meets them. `GridCRF.psi` checks the
feature count first. It then checks the labels, while one-hot encoding, and
then the neighborhood. The relaxed branch checks that the marginals broadcast
against x's features and never consults the neighborhood.

`DirectionalGridCRF.psi` does not call `_check_size_x`. It first indexes `x` by
label and one-hot encodes, and only then checks the neighborhood. The
directional model keeps no feature count of its own. Its `psi` selects
`x[cell][label]`, which is the evidence for that state only when x has one
feature per state. The model states this assumption on
`DirectionalGridCrf.Crf` instead of copying the positional-argument slip of the
constructor (below).

## Model

| member | source | states |
|---|---|---|
| PairwiseFeatures.GridFeatures | problems/grid_crf.py:7-27 | for a grid with a non-empty last axis, fails with the neighborhood error exactly when the neighborhood is not 4 or 8; otherwise returns 2 matrices (neighborhood 4) or 4 (neighborhood 8), each n_states by n_states, in the order right, down, up-right, down-right |
| PairwiseFeatures.PairwiseGridFeatures | problems/grid_crf.py:7-27 | the check-then-append construction of the feature list returns exactly `GridFeatures` |
| PairwiseFeatures.EdgesAreNeighbours | problems/grid_crf.py:13-25 | the cell pairs matched up by the two slices of a direction are in the grid, they are exactly the pairs of grid cells that are neighbours in that direction, and no two of them start at the same cell, so each neighbour pair is listed once |
| PairwiseFeatures.EdgesDistinct | problems/grid_crf.py:13-25 | no two edges of a direction start at the same cell |
| Grids.AnchorsDistinct | problems/grid_crf.py:13-14 | `reshape(-1, depth)` of a block lists no cell twice |
| PairwiseFeatures.FrobFeature | problems/grid_crf.py:13-26 | weighting the features of a direction of a one-hot grid by a matrix p adds up p[label of u][label of v] over the edges (u, v) of that direction |
| PairwiseFeatures.FeatureCountsPairs | problems/grid_crf.py:13-26 | on a one-hot grid, entry [a][b] of a direction's features is the number of that direction's edges whose first cell is labelled a and whose second cell is labelled b |
| PairwiseFeatures.FeatureTotal | problems/grid_crf.py:13-26 | on a one-hot grid, a direction's features add up to its number of edges: rows*(cols-1) right, (rows-1)*cols down, (rows-1)*(cols-1) for each diagonal |
| Grids.OneHotEncode | problems/grid_crf.py:121-123 | filling a zero (rows, cols, n_states) array with a 1 at each cell's label gives the one-hot grid, whose cell vector is the basis vector of the cell's label |
| Grids.SliceCellsAt | problems/grid_crf.py:13-14 | `reshape(-1, depth)` of a slice lists cell (i, j) of the slice at row i * width + j |
| Matrices.Symmetrize | problems/grid_crf.py:131 | `pw + pw.T - diag(diag(pw))` is symmetric, keeps pw's diagonal, and has pw[i][j] + pw[j][i] off the diagonal |
| Matrices.TriFormula | problems/grid_crf.py:68 | `np.tri(n)` has n*(n+1)/2 entries on or below the diagonal |
| Matrices.LowerTriangleAt | problems/grid_crf.py:133 | `m[np.tri(n)]` lists entry (i, j), j <= i, at position i*(i+1)/2 + j |
| Matrices.PackUnpack | problems/grid_crf.py:150-154 | writing a weight slice into the lower triangle by `np.tri` and reading the triangle back returns the slice |
| Matrices.UnpackPack | problems/grid_crf.py:133 | packing a matrix's lower triangle and writing it back keeps the lower triangle and zeroes the rest |
| Matrices.SymmetrizeKeepsLowerTriangle | problems/grid_crf.py:154-156 | symmetrising a lower-triangular matrix does not change its lower triangle |
| Matrices.SymmetricFromLowerTriangle | problems/grid_crf.py:154-156 | a symmetric matrix is recovered by symmetrising the masked write of its packed lower triangle |
| Matrices.SumMatricesAt | problems/grid_crf.py:126-127 | entry (a, b) of `np.sum(features, axis=0)` is the sum of the entries (a, b) of the list |
| Matrices.StackAt | problems/grid_crf.py:255 | `np.vstack` of matrices with r rows each puts row a of matrix t at row t*r + a |
| Matrices.RavelAt | problems/grid_crf.py:132 | `ravel` of an r-by-c matrix puts entry (i, j) at position i*c + j |
| Matrices.ReshapeAt | problems/grid_crf.py:142-143 | `reshape(r, c)` of a vector puts position i*c + j at entry (i, j) |
| Matrices.StackBlocks | problems/grid_crf.py:255-257 | a vector cut into n-by-n blocks, stacked and ravelled, is the vector again |
| GridCrf.New | problems/grid_crf.py:59-66 | a missing feature count defaults to the state count; a given one is kept |
| GridCrf.SizePsiFormula | problems/grid_crf.py:68 | `size_psi` = n_states*n_features + n_states*(n_states+1)/2 |
| GridCrf.DefaultSizePsi | problems/grid_crf.py:62-68 | with the default feature count, `size_psi` = n_states^2 + n_states*(n_states+1)/2 |
| GridCrf.CheckSizeX | problems/grid_crf.py:70-74 | succeeds exactly when x's last axis is n_features; otherwise reports expected and actual counts |
| GridCrf.Psi | problems/grid_crf.py:76-134 | a wrong feature count fails first; a relaxed labelling then fails with the broadcast error exactly when n_features and n_states differ and neither is 1; an integral one fails for a label outside the states, then succeeds exactly for neighborhood 4 or 8; a result has length `size_psi` |
| GridCrf.PsiUnaryEntry | problems/grid_crf.py:115-130 | entry f*n_states + s of `psi` is feature f summed over the cells labelled s |
| GridCrf.PsiPairwiseEntry | problems/grid_crf.py:121-133 | entry n_states*n_features + i*(i+1)/2 + j (j <= i) of `psi` counts the edges of all directions labelled (i, i) when i = j, and (i, j) plus (j, i) otherwise |
| GridCrf.ComputePsi | problems/grid_crf.py:104-134 | the source's sequence of steps, which checks x, fills the one-hot buffer, builds and sums the feature list and stacks the blocks, returns exactly `Psi` |
| GridCrf.UnaryPotentials | problems/grid_crf.py:139-145 | fails exactly when x's feature count is wrong; otherwise a (rows, cols, n_states) grid |
| GridCrf.UnaryWeightAt | problems/grid_crf.py:142-143 | unary weight (f, s) of the reshaped block is w[f*n_states + s], inside the unary block |
| GridCrf.UnaryPotentialAt | problems/grid_crf.py:142-145 | the unary potential of state s at a cell is the sum over features f of the cell's feature f times unary weight (f, s) |
| GridCrf.PairwisePotentials | problems/grid_crf.py:147-156 | fails exactly when x's feature count is wrong; otherwise a symmetric n_states-by-n_states matrix whose `np.tri` lower triangle is w[n_states*n_features:] |
| GridCrf.PairwisePotentialsOfPacked | problems/grid_crf.py:147-156 | conversely, a weight vector whose pairwise part packs a symmetric matrix unpacks to that matrix |
| GridCrf.PairwisePotentialsInPlace | problems/grid_crf.py:150-156 | the masked write into a zero n-by-n buffer, row by row, followed by symmetrising, returns exactly `PairwisePotentials` |
| GridCrf.Energy | problems/grid_crf.py:79-80 | for an integral labelling, dot(w, psi(x, y)) is the sum over cells of the unary potential at the cell's label plus the sum over all grid edges (u, v) of the pairwise potential at (label of u, label of v) |
| GridCrf.RelaxedEnergy | problems/grid_crf.py:106-133 | for a relaxed labelling whose marginals broadcast against x (n_features = n_states, or either is 1), dot(w, psi(x, y)) is the marginal-weighted unary potentials plus the pairwise potentials scored against each edge marginal |
| GridCrf.UnaryBlockEnergy | problems/grid_crf.py:129-132 | the unary block of `psi` scored by the unary weights is the marginal-weighted unary potentials |
| GridCrf.PairwiseBlockEnergy | problems/grid_crf.py:131-133 | the packed symmetrised pair counts scored by the pairwise weights equal the unpacked pairwise potentials scored entry by entry against the unsymmetrised counts |
| GridCrf.OneHotMarginalEnergy | problems/grid_crf.py:121-123 | with one-hot marginals, the marginal-weighted unary potentials are the potentials at the labels |
| GridCrf.SummedFeaturesEnergy | problems/grid_crf.py:126-127 | the summed direction features scored by a matrix p add up p over every edge of every direction |
| DirectionalGridCrf.SizePsiFormula | problems/grid_crf.py:194-195 | `size_psi` = n_states + 2*n_states^2 for neighborhood 4 and n_states + 4*n_states^2 otherwise |
| DirectionalGridCrf.EdgeTypesAreDirections | problems/grid_crf.py:194 | for neighborhood 4 or 8, `n_edge_types` is the number of directions whose features `psi` stacks |
| DirectionalGridCrf.BinCountAt | problems/grid_crf.py:247-248 | bin s of `np.bincount(labels, weights, minlength=n)` is the total weight of the positions labelled s |
| DirectionalGridCrf.DotBinCount | problems/grid_crf.py:247-248 | the bins scored by a vector v add up, position by position, v at the position's label times its weight |
| DirectionalGridCrf.Psi | problems/grid_crf.py:243-258 | a label that is not an index into x's last axis or into the states fails; then success exactly for neighborhood 4 or 8; a result has length `size_psi` |
| DirectionalGridCrf.PsiUnaryEntry | problems/grid_crf.py:245-248 | entry s of `psi` is the evidence for s summed over the cells labelled s. For s below x's depth this is the same reference sum `GridCrf.StateEvidence(x, y, s, s)` as GridCRF's unary block; for a larger s it is 0 |
| DirectionalGridCrf.PsiPairwiseEntry | problems/grid_crf.py:252-257 | entry n_states + (t*n_states + a)*n_states + b of `psi` counts the edges of the t-th direction from a cell labelled a to a cell labelled b |
| DirectionalGridCrf.Energy | problems/grid_crf.py:197-201 | dot(w, psi(x, y)) is the sum over cells of w[label]*x[cell][label] plus, for each direction t, the sum over its edges of block t of `w[n_states:].reshape(n_edge_types, n_states, n_states)` at (label of u, label of v) |

## Left out

- Inference (`inference`, `loss_augmented_inference`) and the backends QPBO, LibDAI, GLPK and AD3 are not modelled. They are calls into foreign libraries through the `CRF` base class, which is not part of this model.
- `_check_size_w` belongs to the `CRF` base class, which is not part of this model. Every member that takes `w` requires `|w| == size_psi` instead of raising.
- `make_grid_edges` and `get_edges` are not modelled. `make_grid_edges` lives in `utils`, which is not part of this model. The model has its own edge lists (`PairwiseFeatures.Edges`), derived from the slices of `pairwise_grid_features`.
- `DirectionalGridCRF.get_pairwise_potentials` and the relaxed-marginal branch of `DirectionalGridCRF.psi` are not modelled, because both depend on `make_grid_edges`.
- `DirectionalGridCRF.__init__` passes `inference_method` positionally into the `n_features` slot of `GridCRF.__init__`. This is not modelled. With a string such as `'lp'` in that slot, `size_psi` adds a string to a number and raises a `TypeError`, so the constructor as written fails for every string `inference_method`, including the call in the demo script. The directional model assumes one feature per state and keeps no feature count, standing in for the constructor the authors evidently meant.
- `DirectionalGridCRF` inherits `get_unary_potentials`, which is not modelled for it. That method reads n_features*n_states unary weights, while the directional `psi` has n_states unary entries. `DirectionalGridCrf.UnaryEnergy` states the unary energy that the directional `psi` actually scores.
- Negative labels are not modelled. Labels are `nat`, so numpy's wrap-around of negative indices never arises.
- A label grid whose shape differs from x's grid is not modelled. `y` is required to have x's rows and columns.
- In the relaxed branch, the unary marginals are required to have x's grid and n_states entries per cell, and each edge marginal to be n_states by n_states. The source only needs their total sizes to agree with the reshapes.
- The value of the `unaries_acc` computed in the relaxed branch of `GridCRF.psi` is overwritten before use. The model keeps only that product's broadcast error, and computes the unary block once, as the source's later line does.
- `size_psi` in the source uses `/` and is a float under true division. The model states it as an exact integer, since n*(n+1) is always even.
- PairwiseFeatures.GridFeatures and PairwiseFeatures.PairwiseGridFeatures require a grid whose last axis is not empty. On such a grid the source raises a `ValueError` from `reshape(-1, 0)`, and this error is not modelled. Every caller in the model passes a one-hot grid with `GridCrf.Positive` states.
- Float64 rounding is not modelled. The model computes with exact reals, so `np.dot(w, psi(x, y))` and the potential sums agree exactly in the model but only up to rounding in the program.
- A state count or feature count of 0 is not modelled. `GridCRF.__init__` accepts both, and `psi` then raises, either from the one-hot fill or from `x.reshape(-1, 0)`. The model's counts have type `GridCrf.Positive`, so these configurations cannot be represented, and their errors are not modelled.
- NumPy dtypes (`np.int`, `np.bool`) are not modelled. Values are exact reals, and `np.tri` is modelled as index arithmetic.
- The learner and the demo script `examples/plot_exact_learning.py` are not modelled. They are toy data generation, a learner that is not part of this model, and plotting.
- `DirectionalGridCrf.EdgeTypesAreDirections` is stated only for neighborhoods 4 and 8. The source's `n_edge_types` is 4 for any other value, but `psi` rejects those values.
