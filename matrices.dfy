/** Dense real matrices as rows of reals, and the numpy operations on them
    that the grid CRF's feature map uses: `+`, `.T`, `np.diag`, `np.dot`,
    `ravel`, `reshape`, and masking with the lower triangle `np.tri`. */
module Matrices {
  import opened Sums

  type Matrix = seq<seq<real>>

  /** `m` has shape (r, c). */
  predicate IsMatrix(m: Matrix, r: nat, c: nat)
  {
    |m| == r && forall i :: 0 <= i < r ==> |m[i]| == c
  }

  /** `a` and `b` have the same (possibly ragged) shape. */
  predicate SameShape(a: Matrix, b: Matrix)
  {
    |a| == |b| && forall i :: 0 <= i < |a| ==> |a[i]| == |b[i]|
  }

  predicate IsSymmetric(m: Matrix, n: nat)
    requires IsMatrix(m, n, n)
  {
    forall i, j :: 0 <= i < n && 0 <= j < n ==> m[i][j] == m[j][i]
  }

  /** Every entry strictly above the diagonal is zero. */
  predicate IsLowerTriangular(m: Matrix, n: nat)
    requires IsMatrix(m, n, n)
  {
    forall i, j :: 0 <= i < j < n ==> m[i][j] == 0.0
  }

  /** `np.zeros((r, c))` */
  function Zeros(r: nat, c: nat): (z: Matrix)
    ensures IsMatrix(z, r, c)
    ensures forall i, j :: 0 <= i < r && 0 <= j < c ==> z[i][j] == 0.0
  {
    seq(r, i => ZeroVector(c))
  }

  /** Element-wise `a + b`. */
  function Add(a: Matrix, b: Matrix): (s: Matrix)
    requires SameShape(a, b)
    ensures SameShape(s, a)
    ensures forall i, j :: 0 <= i < |a| && 0 <= j < |a[i]| ==> s[i][j] == a[i][j] + b[i][j]
  {
    seq(|a|, i requires 0 <= i < |a| => seq(|a[i]|, j requires 0 <= j < |a[i]| => a[i][j] + b[i][j]))
  }

  /** `np.sum(ms, axis=0)` for a list of r-by-c matrices. */
  function SumMatrices(ms: seq<Matrix>, r: nat, c: nat): (s: Matrix)
    requires forall t :: 0 <= t < |ms| ==> IsMatrix(ms[t], r, c)
    ensures IsMatrix(s, r, c)
    decreases |ms|
  {
    if |ms| == 0 then Zeros(r, c)
    else
      var front := SumMatrices(ms[..|ms| - 1], r, c);
      assert IsMatrix(ms[|ms| - 1], r, c);
      Add(front, ms[|ms| - 1])
  }

  /** Entry (a, b) of `np.sum(ms, axis=0)` is the sum of the entries (a, b)
      of the matrices of `ms`. */
  lemma {:induction false} SumMatricesAt(ms: seq<Matrix>, r: nat, c: nat, a: nat, b: nat)
    requires forall t :: 0 <= t < |ms| ==> IsMatrix(ms[t], r, c)
    requires a < r && b < c
    ensures SumMatrices(ms, r, c)[a][b] == Sum(seq(|ms|, t requires 0 <= t < |ms| => ms[t][a][b]))
    decreases |ms|
  {
    var entries := seq(|ms|, t requires 0 <= t < |ms| => ms[t][a][b]);
    if |ms| == 0 {
    } else {
      var front := ms[..|ms| - 1];
      SumMatricesAt(front, r, c, a, b);
      var frontEntries := seq(|front|, t requires 0 <= t < |front| => front[t][a][b]);
      assert entries == frontEntries + [ms[|ms| - 1][a][b]];
      SumSnoc(frontEntries, ms[|ms| - 1][a][b]);
    }
  }

  /** `pw + pw.T - np.diag(np.diag(pw))`: the lower and upper halves of a
      square matrix added together, with the diagonal counted once. */
  function Symmetrize(m: Matrix, n: nat): (s: Matrix)
    requires IsMatrix(m, n, n)
    ensures IsMatrix(s, n, n) && IsSymmetric(s, n)
    ensures forall i :: 0 <= i < n ==> s[i][i] == m[i][i]
    ensures forall i, j :: 0 <= i < n && 0 <= j < n && i != j ==> s[i][j] == m[i][j] + m[j][i]
  {
    seq(n, i requires 0 <= i < n =>
      seq(n, j requires 0 <= j < n => m[i][j] + m[j][i] - (if i == j then m[i][i] else 0.0)))
  }

  /** The number of entries on or below the diagonal of an n-by-n matrix:
      the number of `True` entries of `np.tri(n)`. */
  function Tri(n: nat): nat
  {
    if n == 0 then 0 else Tri(n - 1) + n
  }

  lemma {:induction false} TriFormula(n: nat)
    ensures 2 * Tri(n) == n * (n + 1)
  {
    if n > 0 {
      TriFormula(n - 1);
    }
  }

  lemma {:induction false} TriMonotone(i: nat, n: nat)
    requires i <= n
    ensures Tri(i) <= Tri(n)
    decreases n - i
  {
    if i < n {
      TriMonotone(i + 1, n);
    }
  }

  /** Row `i` of a lower triangle starts at position `Tri(i)` of its
      row-major packing, and every entry (i, j) with j <= i < n fits. */
  lemma TriPosition(i: nat, j: nat, n: nat)
    requires j <= i < n
    ensures Tri(i) + j < Tri(n)
  {
    TriMonotone(i + 1, n);
  }

  /** The first `k` rows of `m` are long enough to hold their part of the
      lower triangle. */
  predicate HasLowerRows(m: Matrix, k: nat)
  {
    k <= |m| && forall i :: 0 <= i < k ==> i < |m[i]|
  }

  /** `m[np.tri(k, dtype=bool)]`: the entries (i, j) with j <= i < k, row by
      row and left to right within a row. */
  function LowerTriangle(m: Matrix, k: nat): (r: seq<real>)
    requires HasLowerRows(m, k)
    ensures |r| == Tri(k)
  {
    if k == 0 then [] else LowerTriangle(m, k - 1) + m[k - 1][..k]
  }

  /** Where entry (i, j) of the lower triangle lands in the packing. */
  lemma {:induction false} LowerTriangleAt(m: Matrix, k: nat, i: nat, j: nat)
    requires HasLowerRows(m, k)
    requires j <= i < k
    ensures Tri(i) + j < Tri(k) && LowerTriangle(m, k)[Tri(i) + j] == m[i][j]
  {
    TriPosition(i, j, k);
    if i < k - 1 {
      LowerTriangleAt(m, k - 1, i, j);
    }
  }

  /** `p = np.zeros((n, n)); p[np.tri(n, dtype=bool)] = flat`: the masked
      write fills the lower triangle from `flat` in row-major order. */
  function FromLowerTriangle(flat: seq<real>, n: nat): (m: Matrix)
    requires |flat| == Tri(n)
    ensures IsMatrix(m, n, n) && IsLowerTriangular(m, n)
  {
    seq(n, i requires 0 <= i < n =>
      seq(n, j requires 0 <= j < n =>
        if j <= i then TriPosition(i, j, n); flat[Tri(i) + j] else 0.0))
  }

  /** Unpacking then packing the lower triangle gives back the packed vector. */
  lemma PackUnpack(flat: seq<real>, n: nat)
    requires |flat| == Tri(n)
    ensures LowerTriangle(FromLowerTriangle(flat, n), n) == flat
  {
    var m := FromLowerTriangle(flat, n);
    var packed := LowerTriangle(m, n);
    forall p | 0 <= p < Tri(n)
      ensures packed[p] == flat[p]
    {
      var i, j := RowOfPosition(p, n);
      LowerTriangleAt(m, n, i, j);
    }
  }

  /** Packing then unpacking keeps the lower triangle and clears the rest. */
  lemma UnpackPack(m: Matrix, n: nat)
    requires IsMatrix(m, n, n)
    ensures forall i, j :: 0 <= i < n && 0 <= j < n ==>
      FromLowerTriangle(LowerTriangle(m, n), n)[i][j] == if j <= i then m[i][j] else 0.0
  {
    forall i, j | 0 <= j <= i < n
      ensures FromLowerTriangle(LowerTriangle(m, n), n)[i][j] == m[i][j]
    {
      LowerTriangleAt(m, n, i, j);
    }
  }

  /** Every position of the packing of an n-by-n lower triangle belongs to
      exactly one entry (i, j) with j <= i < n. */
  lemma {:induction false} RowOfPosition(p: nat, n: nat) returns (i: nat, j: nat)
    requires p < Tri(n)
    ensures j <= i < n && p == Tri(i) + j
  {
    if p < Tri(n - 1) {
      i, j := RowOfPosition(p, n - 1);
    } else {
      i, j := n - 1, p - Tri(n - 1);
    }
  }

  /** Symmetrizing a lower-triangular matrix leaves its lower triangle as it was. */
  lemma SymmetrizeKeepsLowerTriangle(m: Matrix, n: nat)
    requires IsMatrix(m, n, n) && IsLowerTriangular(m, n)
    ensures LowerTriangle(Symmetrize(m, n), n) == LowerTriangle(m, n)
  {
    var s := Symmetrize(m, n);
    forall p | 0 <= p < Tri(n)
      ensures LowerTriangle(s, n)[p] == LowerTriangle(m, n)[p]
    {
      var i, j := RowOfPosition(p, n);
      LowerTriangleAt(s, n, i, j);
      LowerTriangleAt(m, n, i, j);
    }
  }

  /** A symmetric matrix is recovered from its packed lower triangle. */
  lemma SymmetricFromLowerTriangle(s: Matrix, n: nat)
    requires IsMatrix(s, n, n) && IsSymmetric(s, n)
    ensures Symmetrize(FromLowerTriangle(LowerTriangle(s, n), n), n) == s
  {
    UnpackPack(s, n);
    var r := Symmetrize(FromLowerTriangle(LowerTriangle(s, n), n), n);
    forall i | 0 <= i < n
      ensures r[i] == s[i]
    {
      assert forall j :: 0 <= j < n ==> r[i][j] == s[i][j];
    }
  }

  /** `m.ravel()`: the rows one after another. */
  function Ravel(m: Matrix): (v: seq<real>)
  {
    if |m| == 0 then [] else m[0] + Ravel(m[1..])
  }

  lemma {:induction false} RavelLength(m: Matrix, r: nat, c: nat)
    requires IsMatrix(m, r, c)
    ensures |Ravel(m)| == r * c
  {
    if r > 0 {
      RavelLength(m[1..], r - 1, c);
    }
  }

  /** `v.reshape(r, c)`: consecutive pieces of length `c` as rows. */
  function Reshape(v: seq<real>, r: nat, c: nat): (m: Matrix)
    requires |v| == r * c
    ensures IsMatrix(m, r, c)
  {
    if r == 0 then [] else [v[..c]] + Reshape(v[c..], r - 1, c)
  }

  /** Reshaping and ravelling again gives back the vector. */
  lemma {:induction false} RavelReshape(v: seq<real>, r: nat, c: nat)
    requires |v| == r * c
    ensures Ravel(Reshape(v, r, c)) == v
  {
    if r > 0 {
      var m := Reshape(v, r, c);
      assert m[1..] == Reshape(v[c..], r - 1, c);
      RavelReshape(v[c..], r - 1, c);
      assert v == v[..c] + v[c..];
    }
  }

  /** Entry (i, j) of an r-by-c matrix sits at position i * c + j of its
      ravel. */
  lemma {:induction false} RavelAt(m: Matrix, r: nat, c: nat, i: nat, j: nat)
    requires IsMatrix(m, r, c) && i < r && j < c
    ensures |Ravel(m)| == r * c && i * c + j < r * c && Ravel(m)[i * c + j] == m[i][j]
  {
    RavelLength(m, r, c);
    if i > 0 {
      RavelAt(m[1..], r - 1, c, i - 1, j);
      RavelLength(m[1..], r - 1, c);
      assert (i - 1) * c + j + c == i * c + j;
    }
  }

  /** Entry (i, j) of `v.reshape(r, c)` is `v[i * c + j]`. */
  lemma ReshapeAt(v: seq<real>, r: nat, c: nat, i: nat, j: nat)
    requires |v| == r * c && i < r && j < c
    ensures i * c + j < |v| && Reshape(v, r, c)[i][j] == v[i * c + j]
  {
    RavelReshape(v, r, c);
    RavelAt(Reshape(v, r, c), r, c, i, j);
  }

  /** Sum of the element-wise products of two matrices of the same shape
      (the Frobenius inner product). */
  function Frob(a: Matrix, b: Matrix): real
    requires SameShape(a, b)
  {
    Sum(seq(|a|, i requires 0 <= i < |a| => Dot(a[i], b[i])))
  }

  /** The Frobenius product of two matrices is the dot product of their ravels. */
  lemma {:induction false} DotRavel(a: Matrix, b: Matrix)
    requires SameShape(a, b)
    ensures |Ravel(a)| == |Ravel(b)| && Dot(Ravel(a), Ravel(b)) == Frob(a, b)
  {
    if |a| == 0 {
    } else {
      DotRavel(a[1..], b[1..]);
      DotConcat(a[0], Ravel(a[1..]), b[0], Ravel(b[1..]));
      var rows := seq(|a|, i requires 0 <= i < |a| => Dot(a[i], b[i]));
      assert rows[1..] == seq(|a| - 1, i requires 0 <= i < |a| - 1 => Dot(a[1..][i], b[1..][i]));
    }
  }

  /** Frob over the first `k` rows. */
  lemma FrobSnoc(a: Matrix, b: Matrix, k: nat)
    requires SameShape(a, b) && 0 < k <= |a|
    ensures Frob(a[..k], b[..k]) == Frob(a[..k - 1], b[..k - 1]) + Dot(a[k - 1], b[k - 1])
  {
    var whole := seq(k, i requires 0 <= i < k => Dot(a[..k][i], b[..k][i]));
    var front := seq(k - 1, i requires 0 <= i < k - 1 => Dot(a[..k - 1][i], b[..k - 1][i]));
    assert whole == front + [Dot(a[k - 1], b[k - 1])];
    SumSnoc(front, Dot(a[k - 1], b[k - 1]));
  }

  /** The dot product of the packed lower triangles of `l` and `s` is their
      Frobenius product, when `l` is zero above the diagonal. */
  lemma DotLowerTriangle(l: Matrix, s: Matrix, n: nat)
    requires IsMatrix(l, n, n) && IsMatrix(s, n, n) && IsLowerTriangular(l, n)
    ensures Dot(LowerTriangle(l, n), LowerTriangle(s, n)) == Frob(l, s)
  {
    DotLowerTrianglePrefix(l, s, n, n);
    assert l[..n] == l && s[..n] == s;
  }

  lemma {:induction false} DotLowerTrianglePrefix(l: Matrix, s: Matrix, n: nat, k: nat)
    requires IsMatrix(l, n, n) && IsMatrix(s, n, n) && IsLowerTriangular(l, n)
    requires k <= n
    ensures Dot(LowerTriangle(l, k), LowerTriangle(s, k)) == Frob(l[..k], s[..k])
  {
    if k == 0 {
      assert l[..0] == [];
    } else {
      DotLowerTrianglePrefix(l, s, n, k - 1);
      var row, srow := l[k - 1], s[k - 1];
      DotConcat(LowerTriangle(l, k - 1), row[..k], LowerTriangle(s, k - 1), srow[..k]);
      DotConcat(row[..k], row[k..], srow[..k], srow[k..]);
      assert row[..k] + row[k..] == row && srow[..k] + srow[k..] == srow;
      DotZero(srow[k..], row[k..]);
      assert Dot(row[k..], srow[k..]) == Dot(srow[k..], row[k..]) by {
        DotCommutes(row[k..], srow[k..]);
      }
      FrobSnoc(l, s, k);
    }
  }

  lemma DotCommutes(u: seq<real>, v: seq<real>)
    requires |u| == |v|
    ensures Dot(u, v) == Dot(v, u)
  {
    assert seq(|u|, i requires 0 <= i < |u| => u[i] * v[i]) == seq(|v|, i requires 0 <= i < |v| => v[i] * u[i]);
  }

  /** `np.dot(u, v + w) == np.dot(u, v) + np.dot(u, w)`. */
  lemma DotAdd(u: seq<real>, v: seq<real>, w: seq<real>, vw: seq<real>)
    requires |u| == |v| == |w| == |vw|
    requires forall i :: 0 <= i < |vw| ==> vw[i] == v[i] + w[i]
    ensures Dot(u, vw) == Dot(u, v) + Dot(u, w)
  {
    SumAdd(seq(|u|, i requires 0 <= i < |u| => u[i] * v[i]),
           seq(|u|, i requires 0 <= i < |u| => u[i] * w[i]),
           seq(|u|, i requires 0 <= i < |u| => u[i] * vw[i]));
  }

  /** The Frobenius product is additive in its second argument. */
  lemma FrobAdd(p: Matrix, a: Matrix, b: Matrix)
    requires SameShape(p, a) && SameShape(a, b)
    ensures Frob(p, Add(a, b)) == Frob(p, a) + Frob(p, b)
  {
    var s := Add(a, b);
    forall i | 0 <= i < |p|
      ensures Dot(p[i], s[i]) == Dot(p[i], a[i]) + Dot(p[i], b[i])
    {
      DotAdd(p[i], a[i], b[i], s[i]);
    }
    SumAdd(seq(|p|, i requires 0 <= i < |p| => Dot(p[i], a[i])),
           seq(|p|, i requires 0 <= i < |p| => Dot(p[i], b[i])),
           seq(|p|, i requires 0 <= i < |p| => Dot(p[i], s[i])));
  }

  lemma FrobZero(p: Matrix, r: nat, c: nat)
    requires IsMatrix(p, r, c)
    ensures Frob(p, Zeros(r, c)) == 0.0
  {
    var z := Zeros(r, c);
    forall i | 0 <= i < r
      ensures Dot(p[i], z[i]) == 0.0
    {
      DotZero(p[i], z[i]);
    }
    SumZero(seq(r, i requires 0 <= i < r => Dot(p[i], z[i])));
  }

  /** The Frobenius product with `np.sum(ms, axis=0)` is the sum of the
      products with each matrix of the list. */
  lemma {:induction false} FrobSumMatrices(p: Matrix, ms: seq<Matrix>, r: nat, c: nat)
    requires IsMatrix(p, r, c)
    requires forall t :: 0 <= t < |ms| ==> IsMatrix(ms[t], r, c)
    ensures Frob(p, SumMatrices(ms, r, c)) == Sum(seq(|ms|, t requires 0 <= t < |ms| => Frob(p, ms[t])))
    decreases |ms|
  {
    var terms := seq(|ms|, t requires 0 <= t < |ms| => Frob(p, ms[t]));
    if |ms| == 0 {
      FrobZero(p, r, c);
    } else {
      var front := ms[..|ms| - 1];
      FrobSumMatrices(p, front, r, c);
      FrobAdd(p, SumMatrices(front, r, c), ms[|ms| - 1]);
      assert terms == seq(|front|, t requires 0 <= t < |front| => Frob(p, front[t])) + [Frob(p, ms[|ms| - 1])];
      SumSnoc(seq(|front|, t requires 0 <= t < |front| => Frob(p, front[t])), Frob(p, ms[|ms| - 1]));
    }
  }

  /** `np.dot(a.T, b)` for `a` of shape (k, p) and `b` of shape (k, q):
      entry (x, y) is column x of `a` dotted with column y of `b`. */
  function MatMulTN(a: Matrix, b: Matrix, p: nat, q: nat): (m: Matrix)
    requires IsMatrix(a, |a|, p) && IsMatrix(b, |a|, q)
    ensures IsMatrix(m, p, q)
  {
    seq(p, x requires 0 <= x < p =>
      seq(q, y requires 0 <= y < q => Dot(Column(a, x), Column(b, y))))
  }

  /** `np.dot(u, m)` for a vector `u` and a matrix `m` with `|u|` rows. */
  function VecMat(u: seq<real>, m: Matrix, q: nat): (v: seq<real>)
    requires IsMatrix(m, |u|, q)
    ensures |v| == q
  {
    seq(q, y requires 0 <= y < q => Dot(u, Column(m, y)))
  }

  /** `np.outer(u, v)` */
  function Outer(u: seq<real>, v: seq<real>): (m: Matrix)
    ensures IsMatrix(m, |u|, |v|)
  {
    seq(|u|, x requires 0 <= x < |u| => seq(|v|, y requires 0 <= y < |v| => u[x] * v[y]))
  }

  /** The one-hot vector of length `n` with its 1 at position `s`. */
  function Basis(n: nat, s: nat): (e: seq<real>)
    ensures |e| == n && forall t :: 0 <= t < n ==> e[t] == if t == s then 1.0 else 0.0
  {
    seq(n, t => if t == s then 1.0 else 0.0)
  }

  /** Dotting with a one-hot vector picks one entry. */
  lemma DotBasis(v: seq<real>, s: nat)
    requires s < |v|
    ensures Dot(v, Basis(|v|, s)) == v[s]
  {
    var e := Basis(|v|, s);
    var terms := seq(|v|, i requires 0 <= i < |v| => v[i] * e[i]);
    forall i | 0 <= i < |v| && i != s
      ensures terms[i] == 0.0
    {
      assert e[i] == 0.0;
    }
    SumSingle(terms, s);
  }

  /** The Frobenius product with the outer product of two one-hot vectors
      picks entry (a, b). */
  lemma FrobOuterBasis(m: Matrix, p: nat, q: nat, a: nat, b: nat)
    requires IsMatrix(m, p, q) && a < p && b < q
    ensures Frob(m, Outer(Basis(p, a), Basis(q, b))) == m[a][b]
  {
    var o := Outer(Basis(p, a), Basis(q, b));
    var rows := seq(p, i requires 0 <= i < p => Dot(m[i], o[i]));
    forall i | 0 <= i < p && i != a
      ensures rows[i] == 0.0
    {
      DotZero(m[i], o[i]);
    }
    assert o[a] == Basis(q, b);
    DotBasis(m[a], b);
    SumSingle(rows, a);
  }

  /** Sum of all entries of a table, row by row. */
  function TableSum(t: seq<seq<real>>): real
  {
    Sum(RowSums(t))
  }

  /** The transpose of a table with `n` columns. */
  function Transpose(t: Matrix, n: nat): (u: Matrix)
    requires IsMatrix(t, |t|, n)
    ensures IsMatrix(u, n, |t|)
    ensures forall i, j :: 0 <= i < n && 0 <= j < |t| ==> u[i][j] == t[j][i]
  {
    seq(n, j requires 0 <= j < n => Column(t, j))
  }

  lemma TableSumTranspose(t: Matrix, n: nat)
    requires IsMatrix(t, |t|, n)
    ensures TableSum(Transpose(t, n)) == TableSum(t)
  {
    SumSwap(t, n);
    assert RowSums(Transpose(t, n)) == ColumnSums(t, n);
  }

  /** Table sums are subtractive entry by entry. */
  lemma TableSumSub(a: Matrix, b: Matrix, c: Matrix, r: nat, n: nat)
    requires IsMatrix(a, r, n) && IsMatrix(b, r, n) && IsMatrix(c, r, n)
    requires forall i, j :: 0 <= i < r && 0 <= j < n ==> c[i][j] == a[i][j] - b[i][j]
    ensures TableSum(c) == TableSum(a) - TableSum(b)
  {
    forall i | 0 <= i < r
      ensures RowSums(c)[i] == RowSums(a)[i] - RowSums(b)[i]
    {
      SumSub(a[i], b[i], c[i]);
    }
    SumSub(RowSums(a), RowSums(b), RowSums(c));
  }

  /** The entry-wise products of two matrices of the same shape. */
  function Hadamard(a: Matrix, b: Matrix): (h: Matrix)
    requires SameShape(a, b)
    ensures SameShape(h, a)
  {
    seq(|a|, i requires 0 <= i < |a| => seq(|a[i]|, j requires 0 <= j < |a[i]| => a[i][j] * b[i][j]))
  }

  lemma FrobIsTableSum(a: Matrix, b: Matrix)
    requires SameShape(a, b)
    ensures Frob(a, b) == TableSum(Hadamard(a, b))
  {
    assert seq(|a|, i requires 0 <= i < |a| => Dot(a[i], b[i])) == RowSums(Hadamard(a, b));
  }

  /** Frobenius product is symmetric in its two arguments. */
  lemma FrobCommutes(a: Matrix, b: Matrix)
    requires SameShape(a, b)
    ensures SameShape(b, a) && Frob(a, b) == Frob(b, a)
  {
    forall i | 0 <= i < |a|
      ensures Dot(a[i], b[i]) == Dot(b[i], a[i])
    {
      DotCommutes(a[i], b[i]);
    }
    assert seq(|a|, i requires 0 <= i < |a| => Dot(a[i], b[i]))
        == seq(|b|, i requires 0 <= i < |b| => Dot(b[i], a[i]));
  }

  /** An n-by-n matrix of ones. */
  function Ones(n: nat): (m: Matrix)
    ensures IsMatrix(m, n, n) && forall i, j :: 0 <= i < n && 0 <= j < n ==> m[i][j] == 1.0
  {
    seq(n, i => seq(n, j => 1.0))
  }

  lemma HadamardOnes(m: Matrix, n: nat)
    requires IsMatrix(m, n, n)
    ensures Hadamard(Ones(n), m) == m
  {
    var h := Hadamard(Ones(n), m);
    forall i | 0 <= i < n
      ensures h[i] == m[i]
    {
      assert forall j :: 0 <= j < n ==> h[i][j] == m[i][j];
    }
  }

  /** The off-diagonal products l[j][i] * c[i][j]. */
  function Cross(l: Matrix, c: Matrix, n: nat): (t: Matrix)
    requires IsMatrix(l, n, n) && IsMatrix(c, n, n)
    ensures IsMatrix(t, n, n)
  {
    seq(n, i requires 0 <= i < n => seq(n, j requires 0 <= j < n => l[j][i] * c[i][j]))
  }

  /** Entry by entry, the two symmetrized products differ by the cross
      products minus their transpose. */
  lemma SymmetrizeEntry(l: Matrix, c: Matrix, n: nat, i: nat, j: nat)
    requires IsMatrix(l, n, n) && IsMatrix(c, n, n) && i < n && j < n
    ensures Hadamard(Symmetrize(l, n), c)[i][j] - Hadamard(l, Symmetrize(c, n))[i][j]
         == Cross(l, c, n)[i][j] - Transpose(Cross(l, c, n), n)[i][j]
  {
  }

  /** Symmetrizing either factor of a Frobenius product gives the same value:
      sum_ij (l + l.T - diag l)_ij c_ij == sum_ij l_ij (c + c.T - diag c)_ij. */
  lemma FrobSymmetrize(l: Matrix, c: Matrix, n: nat)
    requires IsMatrix(l, n, n) && IsMatrix(c, n, n)
    ensures Frob(Symmetrize(l, n), c) == Frob(l, Symmetrize(c, n))
  {
    var x := Hadamard(Symmetrize(l, n), c);
    var y := Hadamard(l, Symmetrize(c, n));
    var cross := Cross(l, c, n);
    var crossT := Transpose(cross, n);
    var d := seq(n, i requires 0 <= i < n => seq(n, j requires 0 <= j < n => x[i][j] - y[i][j]));
    forall i, j | 0 <= i < n && 0 <= j < n
      ensures d[i][j] == cross[i][j] - crossT[i][j]
    {
      SymmetrizeEntry(l, c, n, i, j);
    }
    TableSumSub(cross, crossT, d, n, n);
    TableSumTranspose(cross, n);
    TableSumSub(x, y, d, n, n);
    FrobIsTableSum(Symmetrize(l, n), c);
    FrobIsTableSum(l, Symmetrize(c, n));
  }

  /** The table of products u[f] * m[f][s] * v[s]. */
  function Weighted(u: seq<real>, m: Matrix, v: seq<real>): (t: Matrix)
    requires IsMatrix(m, |u|, |v|)
    ensures IsMatrix(t, |u|, |v|)
  {
    seq(|u|, f requires 0 <= f < |u| => seq(|v|, s requires 0 <= s < |v| => u[f] * m[f][s] * v[s]))
  }

  /** Summed by rows, the weighted table is the Frobenius product of `m`
      with the outer product of `u` and `v`. */
  lemma FrobOuterRows(u: seq<real>, m: Matrix, v: seq<real>)
    requires IsMatrix(m, |u|, |v|)
    ensures Frob(m, Outer(u, v)) == Sum(RowSums(Weighted(u, m, v)))
  {
    var p, q := |u|, |v|;
    var t := Weighted(u, m, v);
    var o := Outer(u, v);
    forall f | 0 <= f < p
      ensures Dot(m[f], o[f]) == Sum(t[f])
    {
      var prods := seq(q, s requires 0 <= s < q => m[f][s] * o[f][s]);
      forall s | 0 <= s < q
        ensures prods[s] == t[f][s]
      {
        assert o[f][s] == u[f] * v[s];
      }
      assert prods == t[f];
    }
    assert seq(p, f requires 0 <= f < p => Dot(m[f], o[f])) == RowSums(t);
  }

  /** Summed by columns, the weighted table is `np.dot(u, m)` dotted with `v`. */
  lemma VecMatColumns(u: seq<real>, m: Matrix, v: seq<real>)
    requires IsMatrix(m, |u|, |v|)
    ensures Dot(VecMat(u, m, |v|), v) == Sum(ColumnSums(Weighted(u, m, v), |v|))
  {
    var p, q := |u|, |v|;
    var t := Weighted(u, m, v);
    var vm := VecMat(u, m, q);
    forall s | 0 <= s < q
      ensures vm[s] * v[s] == ColumnSums(t, q)[s]
    {
      SumScale(seq(p, f requires 0 <= f < p => u[f] * Column(m, s)[f]), v[s], Column(t, s));
    }
    var scaled := seq(q, s requires 0 <= s < q => vm[s] * v[s]);
    assert forall s :: 0 <= s < q ==> scaled[s] == ColumnSums(t, q)[s];
    assert scaled == ColumnSums(t, q);
  }

  /** `np.dot(u, m)` dotted with `v` is the Frobenius product of `m` with
      the outer product of `u` and `v`. */
  lemma VecMatOuter(u: seq<real>, m: Matrix, v: seq<real>)
    requires IsMatrix(m, |u|, |v|)
    ensures Dot(VecMat(u, m, |v|), v) == Frob(m, Outer(u, v))
  {
    FrobOuterRows(u, m, v);
    VecMatColumns(u, m, v);
    SumSwap(Weighted(u, m, v), |v|);
  }

  /** `np.dot(a.T, b)` grows by one outer product per row of `a` and `b`. */
  lemma MatMulTNSnoc(a: Matrix, b: Matrix, p: nat, q: nat)
    requires IsMatrix(a, |a|, p) && IsMatrix(b, |a|, q) && |a| > 0
    ensures MatMulTN(a, b, p, q)
         == Add(MatMulTN(a[..|a| - 1], b[..|a| - 1], p, q), Outer(a[|a| - 1], b[|a| - 1]))
  {
    var k := |a| - 1;
    var whole := MatMulTN(a, b, p, q);
    var front := MatMulTN(a[..k], b[..k], p, q);
    var sum := Add(front, Outer(a[k], b[k]));
    forall x | 0 <= x < p
      ensures whole[x] == sum[x]
    {
      forall y | 0 <= y < q
        ensures whole[x][y] == sum[x][y]
      {
        assert Column(a, x) == Column(a[..k], x) + [a[k][x]];
        assert Column(b, y) == Column(b[..k], y) + [b[k][y]];
        DotConcat(Column(a[..k], x), [a[k][x]], Column(b[..k], y), [b[k][y]]);
        var single := seq(1, i requires 0 <= i < 1 => [a[k][x]][i] * [b[k][y]][i]);
        assert single[0] == a[k][x] * b[k][y];
        assert single == [a[k][x] * b[k][y]];
        assert Sum([a[k][x] * b[k][y]]) == a[k][x] * b[k][y];
      }
    }
  }

  /** The Frobenius product with `np.dot(a.T, b)` is the sum, over the rows
      k, of the Frobenius products with the outer products a[k] b[k]^T. */
  lemma {:induction false} FrobMatMul(m: Matrix, a: Matrix, b: Matrix, p: nat, q: nat)
    requires IsMatrix(m, p, q) && IsMatrix(a, |a|, p) && IsMatrix(b, |a|, q)
    ensures Frob(m, MatMulTN(a, b, p, q))
         == Sum(seq(|a|, k requires 0 <= k < |a| => Frob(m, Outer(a[k], b[k]))))
    decreases |a|
  {
    var terms := seq(|a|, k requires 0 <= k < |a| => Frob(m, Outer(a[k], b[k])));
    if |a| == 0 {
      var mm := MatMulTN(a, b, p, q);
      forall x | 0 <= x < p
        ensures mm[x] == Zeros(p, q)[x]
      {
        forall y | 0 <= y < q
          ensures mm[x][y] == 0.0
        {
          assert Column(a, x) == [];
        }
      }
      assert mm == Zeros(p, q);
      FrobZero(m, p, q);
    } else {
      var k := |a| - 1;
      FrobMatMul(m, a[..k], b[..k], p, q);
      MatMulTNSnoc(a, b, p, q);
      FrobAdd(m, MatMulTN(a[..k], b[..k], p, q), Outer(a[k], b[k]));
      var front := seq(k, t requires 0 <= t < k => Frob(m, Outer(a[..k][t], b[..k][t])));
      assert terms == front + [Frob(m, Outer(a[k], b[k]))];
      SumSnoc(front, Frob(m, Outer(a[k], b[k])));
    }
  }

  /** Regrouping the product behind the length of k stacked r-by-c matrices. */
  lemma MulAssoc(a: nat, b: nat, c: nat)
    ensures (a * b) * c == a * (b * c)
  {
  }

  /** `np.vstack(ms)`: the rows of the matrices of `ms`, one matrix after
      another. */
  function Stack(ms: seq<Matrix>): Matrix
  {
    if |ms| == 0 then [] else Stack(ms[..|ms| - 1]) + ms[|ms| - 1]
  }

  /** Stacking matrices of r rows each gives `|ms| * r` rows, and row a of
      matrix t lands at row t * r + a. */
  lemma {:induction false} StackAt(ms: seq<Matrix>, r: nat, c: nat, t: nat, a: nat)
    requires forall u :: 0 <= u < |ms| ==> IsMatrix(ms[u], r, c)
    requires t < |ms| && a < r
    ensures IsMatrix(Stack(ms), |ms| * r, c)
    ensures 0 <= t * r && t * r + a < |ms| * r && a < |ms[t]|
    ensures Stack(ms)[t * r + a] == ms[t][a]
    decreases |ms|
  {
    StackShape(ms, r, c);
    var front := ms[..|ms| - 1];
    StackShape(front, r, c);
    if t < |ms| - 1 {
      StackAt(front, r, c, t, a);
    } else {
      assert t * r == |front| * r;
    }
  }

  lemma {:induction false} StackShape(ms: seq<Matrix>, r: nat, c: nat)
    requires forall u :: 0 <= u < |ms| ==> IsMatrix(ms[u], r, c)
    ensures IsMatrix(Stack(ms), |ms| * r, c)
    decreases |ms|
  {
    if |ms| > 0 {
      StackShape(ms[..|ms| - 1], r, c);
      assert (|ms| - 1) * r + r == |ms| * r;
    }
  }

  /** Ravelling a concatenation of row lists ravels each in turn. */
  lemma {:induction false} RavelConcat(a: Matrix, b: Matrix)
    ensures Ravel(a + b) == Ravel(a) + Ravel(b)
  {
    if |a| > 0 {
      assert (a + b)[1..] == a[1..] + b;
      RavelConcat(a[1..], b);
    } else {
      assert a + b == b;
    }
  }

  /** The Frobenius product splits over stacked row lists. */
  lemma FrobConcat(a: Matrix, b: Matrix, c: Matrix, d: Matrix)
    requires SameShape(a, c) && SameShape(b, d)
    ensures SameShape(a + b, c + d)
    ensures Frob(a + b, c + d) == Frob(a, c) + Frob(b, d)
  {
    var whole := seq(|a + b|, i requires 0 <= i < |a + b| => Dot((a + b)[i], (c + d)[i]));
    var top := seq(|a|, i requires 0 <= i < |a| => Dot(a[i], c[i]));
    var bottom := seq(|b|, i requires 0 <= i < |b| => Dot(b[i], d[i]));
    assert whole == top + bottom;
    SumConcat(top, bottom);
  }

  /** The Frobenius product of two stacks of same-shaped matrices is the sum
      of the products of the matrices pair by pair. */
  lemma {:induction false} FrobStack(ps: seq<Matrix>, ms: seq<Matrix>, r: nat, c: nat)
    requires |ps| == |ms|
    requires forall t :: 0 <= t < |ms| ==> IsMatrix(ps[t], r, c) && IsMatrix(ms[t], r, c)
    requires forall t :: 0 <= t < |ms| ==> SameShape(ps[t], ms[t])
    ensures SameShape(Stack(ps), Stack(ms))
    ensures Frob(Stack(ps), Stack(ms)) == Sum(seq(|ms|, t requires 0 <= t < |ms| => Frob(ps[t], ms[t])))
    decreases |ms|
  {
    StackShape(ps, r, c);
    StackShape(ms, r, c);
    var terms := seq(|ms|, t requires 0 <= t < |ms| => Frob(ps[t], ms[t]));
    if |ms| == 0 {
    } else {
      var k := |ms| - 1;
      var pf, mf := ps[..k], ms[..k];
      FrobStack(pf, mf, r, c);
      StackShape(pf, r, c);
      StackShape(mf, r, c);
      FrobConcat(Stack(pf), ps[k], Stack(mf), ms[k]);
      var front := seq(|mf|, t requires 0 <= t < |mf| => Frob(pf[t], mf[t]));
      assert terms == front + [Frob(ps[k], ms[k])];
      SumSnoc(front, Frob(ps[k], ms[k]));
    }
  }

  /** `v.reshape(count, n, n)`: consecutive pieces of n * n entries as
      n-by-n matrices. */
  function Blocks(v: seq<real>, count: nat, n: nat): (bs: seq<Matrix>)
    requires |v| == count * (n * n)
    ensures |bs| == count && forall t :: 0 <= t < count ==> IsMatrix(bs[t], n, n)
  {
    if count == 0 then []
    else
      var cut := (count - 1) * (n * n);
      assert cut + n * n == count * (n * n);
      Blocks(v[..cut], count - 1, n) + [Reshape(v[cut..], n, n)]
  }

  /** Stacking the blocks and ravelling gives back the vector. */
  lemma {:induction false} StackBlocks(v: seq<real>, count: nat, n: nat)
    requires |v| == count * (n * n)
    ensures Ravel(Stack(Blocks(v, count, n))) == v
  {
    if count > 0 {
      var cut := (count - 1) * (n * n);
      assert cut + n * n == count * (n * n);
      var bs := Blocks(v, count, n);
      assert bs[..count - 1] == Blocks(v[..cut], count - 1, n);
      StackBlocks(v[..cut], count - 1, n);
      RavelConcat(Stack(bs[..count - 1]), bs[count - 1]);
      RavelReshape(v[cut..], n, n);
      assert v == v[..cut] + v[cut..];
    }
  }
}
