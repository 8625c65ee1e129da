/** Exact sums and dot products over sequences of reals.

    Every quantity of the feature map is a finite sum, and numpy's `np.dot`,
    `np.sum` and `np.bincount` all reduce to the `Sum` below.  Sums are taken
    over sequences (not over function values) so that two sums can be shown
    equal by showing their sequences equal element by element. */
module Sums {

  /** The sum of the elements of `s`, from the left. */
  function Sum(s: seq<real>): real
  {
    if |s| == 0 then 0.0 else s[0] + Sum(s[1..])
  }

  /** Inner product of two vectors of the same length (`np.dot` on 1-d arrays). */
  function Dot(u: seq<real>, v: seq<real>): real
    requires |u| == |v|
  {
    Sum(seq(|u|, i requires 0 <= i < |u| => u[i] * v[i]))
  }

  /** A sequence of `n` zeros (`np.zeros(n)`). */
  function ZeroVector(n: nat): (r: seq<real>)
    ensures |r| == n && forall i :: 0 <= i < n ==> r[i] == 0.0
  {
    seq(n, i => 0.0)
  }

  lemma {:induction false} SumConcat(a: seq<real>, b: seq<real>)
    ensures Sum(a + b) == Sum(a) + Sum(b)
  {
    if |a| > 0 {
      assert (a + b)[1..] == a[1..] + b;
      SumConcat(a[1..], b);
    } else {
      assert a + b == b;
    }
  }

  /** Appending one element adds it to the sum. */
  lemma SumSnoc(a: seq<real>, x: real)
    ensures Sum(a + [x]) == Sum(a) + x
  {
    SumConcat(a, [x]);
  }

  /** A sum of zeros is zero. */
  lemma {:induction false} SumZero(a: seq<real>)
    requires forall i :: 0 <= i < |a| ==> a[i] == 0.0
    ensures Sum(a) == 0.0
  {
    if |a| > 0 {
      SumZero(a[1..]);
    }
  }

  /** Summation is additive element by element. */
  lemma {:induction false} SumAdd(a: seq<real>, b: seq<real>, c: seq<real>)
    requires |a| == |b| == |c|
    requires forall i :: 0 <= i < |c| ==> c[i] == a[i] + b[i]
    ensures Sum(c) == Sum(a) + Sum(b)
  {
    if |c| > 0 {
      SumAdd(a[1..], b[1..], c[1..]);
    }
  }

  /** Summation is subtractive element by element. */
  lemma SumSub(a: seq<real>, b: seq<real>, c: seq<real>)
    requires |a| == |b| == |c|
    requires forall i :: 0 <= i < |c| ==> c[i] == a[i] - b[i]
    ensures Sum(c) == Sum(a) - Sum(b)
  {
    SumAdd(c, b, a);
  }

  /** A constant factor can be taken out of a sum. */
  lemma {:induction false} SumScale(a: seq<real>, k: real, c: seq<real>)
    requires |a| == |c|
    requires forall i :: 0 <= i < |c| ==> c[i] == k * a[i]
    ensures Sum(c) == k * Sum(a)
  {
    if |c| > 0 {
      SumScale(a[1..], k, c[1..]);
    }
  }

  /** A sum whose only non-zero term is at `p` equals that term. */
  lemma {:induction false} SumSingle(a: seq<real>, p: nat)
    requires p < |a|
    requires forall i :: 0 <= i < |a| && i != p ==> a[i] == 0.0
    ensures Sum(a) == a[p]
  {
    if p == 0 {
      SumZero(a[1..]);
    } else {
      SumSingle(a[1..], p - 1);
    }
  }

  /** A sum of `n` ones is `n`. */
  lemma {:induction false} SumOnes(a: seq<real>)
    requires forall i :: 0 <= i < |a| ==> a[i] == 1.0
    ensures Sum(a) == |a| as real
  {
    if |a| > 0 {
      SumOnes(a[1..]);
    }
  }

  /** The row sums of a rectangular table of reals. */
  function RowSums(t: seq<seq<real>>): (r: seq<real>)
    ensures |r| == |t|
  {
    seq(|t|, i requires 0 <= i < |t| => Sum(t[i]))
  }

  /** Column `j` of a table whose rows all have more than `j` entries. */
  function Column(t: seq<seq<real>>, j: nat): (r: seq<real>)
    requires forall i :: 0 <= i < |t| ==> j < |t[i]|
    ensures |r| == |t| && forall i :: 0 <= i < |t| ==> r[i] == t[i][j]
  {
    seq(|t|, i requires 0 <= i < |t| => t[i][j])
  }

  /** The column sums of a table with `n` columns. */
  function ColumnSums(t: seq<seq<real>>, n: nat): (r: seq<real>)
    requires forall i :: 0 <= i < |t| ==> |t[i]| == n
    ensures |r| == n
  {
    seq(n, j requires 0 <= j < n => Sum(Column(t, j)))
  }

  /** Summing a rectangular table by rows or by columns gives the same total. */
  lemma {:induction false} SumSwap(t: seq<seq<real>>, n: nat)
    requires forall i :: 0 <= i < |t| ==> |t[i]| == n
    ensures Sum(RowSums(t)) == Sum(ColumnSums(t, n))
  {
    if |t| == 0 {
      SumZero(ColumnSums(t, n));
    } else {
      var rest := t[1..];
      SumSwap(rest, n);
      assert RowSums(t)[1..] == RowSums(rest);
      forall j | 0 <= j < n
        ensures ColumnSums(t, n)[j] == t[0][j] + ColumnSums(rest, n)[j]
      {
        assert Column(t, j)[1..] == Column(rest, j);
      }
      SumAdd(t[0], ColumnSums(rest, n), ColumnSums(t, n));
    }
  }

  /** The dot product splits over concatenations of equal-length pieces. */
  lemma DotConcat(a: seq<real>, b: seq<real>, c: seq<real>, d: seq<real>)
    requires |a| == |c| && |b| == |d|
    ensures Dot(a + b, c + d) == Dot(a, c) + Dot(b, d)
  {
    var whole := seq(|a + b|, i requires 0 <= i < |a + b| => (a + b)[i] * (c + d)[i]);
    var left := seq(|a|, i requires 0 <= i < |a| => a[i] * c[i]);
    var right := seq(|b|, i requires 0 <= i < |b| => b[i] * d[i]);
    forall i | 0 <= i < |whole|
      ensures whole[i] == (left + right)[i]
    {
      if i >= |a| {
        assert (a + b)[i] == b[i - |a|] && (c + d)[i] == d[i - |a|];
      }
    }
    assert whole == left + right;
    SumConcat(left, right);
  }

  /** Splitting a weight vector at `k` splits its dot product with a
      concatenation whose first part has `k` entries. */
  lemma DotSplit(w: seq<real>, k: nat, c: seq<real>, d: seq<real>)
    requires |c| == k <= |w| && |w| == k + |d|
    ensures Dot(w, c + d) == Dot(w[..k], c) + Dot(w[k..], d)
  {
    assert w == w[..k] + w[k..];
    DotConcat(w[..k], w[k..], c, d);
  }

  /** Dot with a zero vector is zero. */
  lemma DotZero(u: seq<real>, z: seq<real>)
    requires |u| == |z|
    requires forall i :: 0 <= i < |z| ==> z[i] == 0.0
    ensures Dot(u, z) == 0.0
  {
    SumZero(seq(|u|, i requires 0 <= i < |u| => u[i] * z[i]));
  }

  /** Dot with a vector whose only non-zero entry is at `p`. */
  lemma DotSingle(u: seq<real>, z: seq<real>, p: nat)
    requires |u| == |z| && p < |z|
    requires forall i :: 0 <= i < |z| && i != p ==> z[i] == 0.0
    ensures Dot(u, z) == u[p] * z[p]
  {
    SumSingle(seq(|u|, i requires 0 <= i < |u| => u[i] * z[i]), p);
  }
}
