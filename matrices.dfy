/**
 * Square matrices as sequences of rows, their sums, and snapshots of the
 * two-dimensional arrays that hold them in the transition objects.
 */
module Matrices {

  /** `M` has `L` rows of length `L`. */
  predicate IsSquare<T>(M: seq<seq<T>>, L: nat) {
    |M| == L && forall i :: 0 <= i < L ==> |M[i]| == L
  }

  /** The current contents of a 2-D array, row by row. */
  function Cells<T>(a: array2<T>): (M: seq<seq<T>>)
    reads a
    ensures |M| == a.Length0
    ensures forall i :: 0 <= i < a.Length0 ==> |M[i]| == a.Length1
    ensures forall i, j :: 0 <= i < a.Length0 && 0 <= j < a.Length1 ==> M[i][j] == a[i, j]
  {
    seq(a.Length0, i requires 0 <= i < a.Length0 reads a =>
      seq(a.Length1, j requires 0 <= j < a.Length1 reads a => a[i, j]))
  }

  /** Two square matrices with the same cells are equal. */
  lemma Extensional<T>(X: seq<seq<T>>, Y: seq<seq<T>>, L: nat)
    requires IsSquare(X, L) && IsSquare(Y, L)
    requires forall i, j :: 0 <= i < L && 0 <= j < L ==> X[i][j] == Y[i][j]
    ensures X == Y
  {
    forall i | 0 <= i < L ensures X[i] == Y[i] {
      assert forall j :: 0 <= j < L ==> X[i][j] == Y[i][j];
    }
  }

  function Zero(L: nat): (Z: seq<seq<nat>>)
    ensures IsSquare(Z, L)
    ensures forall i, j :: 0 <= i < L && 0 <= j < L ==> Z[i][j] == 0
  {
    seq(L, _ => seq(L, _ => 0))
  }

  predicate AllZero(M: seq<seq<int>>) {
    forall i, j :: 0 <= i < |M| && 0 <= j < |M[i]| ==> M[i][j] == 0
  }

  predicate NonNegative(M: seq<seq<int>>) {
    forall i, j :: 0 <= i < |M| && 0 <= j < |M[i]| ==> M[i][j] >= 0
  }

  // ---------------------------------------------------------------- sums

  function Sum(s: seq<int>): (r: int)
    ensures (forall k :: 0 <= k < |s| ==> s[k] >= 0) ==> r >= 0
  {
    if s == [] then 0 else Sum(s[..|s| - 1]) + s[|s| - 1]
  }

  /** The sum of a matrix, row by row (numpy's `M.sum()`). */
  function Total(M: seq<seq<int>>): (r: int)
    ensures NonNegative(M) ==> r >= 0
  {
    if M == [] then 0 else Total(M[..|M| - 1]) + Sum(M[|M| - 1])
  }

  /** The sum of column `j` (numpy's `M.sum(0)[j]`). */
  function ColSum(M: seq<seq<int>>, j: nat): (r: int)
    requires forall i :: 0 <= i < |M| ==> j < |M[i]|
    ensures NonNegative(M) ==> r >= 0
  {
    if M == [] then 0 else ColSum(M[..|M| - 1], j) + M[|M| - 1][j]
  }

  lemma {:induction false} SumAppend(a: seq<int>, b: seq<int>)
    ensures Sum(a + b) == Sum(a) + Sum(b)
    decreases |b|
  {
    if b == [] {
      assert a + b == a;
    } else {
      assert (a + b)[..|a + b| - 1] == a + b[..|b| - 1];
      SumAppend(a, b[..|b| - 1]);
    }
  }

  lemma {:induction false} SumNonNegative(s: seq<int>)
    requires forall k :: 0 <= k < |s| ==> s[k] >= 0
    ensures Sum(s) >= 0
    ensures Sum(s) == 0 <==> forall k :: 0 <= k < |s| ==> s[k] == 0
  {
    if s != [] {
      var init := s[..|s| - 1];
      SumNonNegative(init);
      assert forall k :: 0 <= k < |init| ==> init[k] == s[k];
    }
  }

  lemma {:induction false} TotalNonNegative(M: seq<seq<int>>)
    requires NonNegative(M)
    ensures Total(M) >= 0
    ensures Total(M) == 0 <==> AllZero(M)
  {
    if M != [] {
      var n := |M| - 1;
      var init := M[..n];
      assert forall i :: 0 <= i < n ==> init[i] == M[i];
      TotalNonNegative(init);
      SumNonNegative(M[n]);
      assert AllZero(M) <==> AllZero(init) && forall k :: 0 <= k < |M[n]| ==> M[n][k] == 0;
    }
  }

  /** Sum of the pointwise sum of two rows of equal length. */
  lemma {:induction false} SumPointwise(a: seq<int>, b: seq<int>, c: seq<int>)
    requires |a| == |b| == |c|
    requires forall k :: 0 <= k < |c| ==> c[k] == a[k] + b[k]
    ensures Sum(c) == Sum(a) + Sum(b)
  {
    if c != [] {
      var n := |c| - 1;
      SumPointwise(a[..n], b[..n], c[..n]);
    }
  }

  /** Cell-wise sum of two matrices of the same shape. */
  function Add(X: seq<seq<int>>, Y: seq<seq<int>>): (S: seq<seq<int>>)
    requires |X| == |Y| && forall i :: 0 <= i < |X| ==> |X[i]| == |Y[i]|
    ensures |S| == |X| && forall i :: 0 <= i < |X| ==> |S[i]| == |X[i]|
    ensures forall i, j :: 0 <= i < |X| && 0 <= j < |X[i]| ==> S[i][j] == X[i][j] + Y[i][j]
  {
    seq(|X|, i requires 0 <= i < |X| => seq(|X[i]|, j requires 0 <= j < |X[i]| => X[i][j] + Y[i][j]))
  }

  /** The sum of a cell-wise sum is the sum of the sums. */
  lemma {:induction false} TotalAdd(X: seq<seq<int>>, Y: seq<seq<int>>)
    requires |X| == |Y| && forall i :: 0 <= i < |X| ==> |X[i]| == |Y[i]|
    ensures Total(Add(X, Y)) == Total(X) + Total(Y)
  {
    if X != [] {
      var n := |X| - 1;
      var S := Add(X, Y);
      assert S[..n] == Add(X[..n], Y[..n]);
      TotalAdd(X[..n], Y[..n]);
      SumPointwise(X[n], Y[n], S[n]);
    }
  }

  /** Two square matrices that add up cell by cell to `M` have sums adding up to that of `M`. */
  lemma TotalOfParts(X: seq<seq<int>>, Y: seq<seq<int>>, M: seq<seq<int>>, L: nat)
    requires IsSquare(X, L) && IsSquare(Y, L) && IsSquare(M, L)
    requires forall i, j :: 0 <= i < L && 0 <= j < L ==> X[i][j] + Y[i][j] == M[i][j]
    ensures Total(X) + Total(Y) == Total(M)
  {
    var S := Add(X, Y);
    assert S == M by {
      forall i, j | 0 <= i < L && 0 <= j < L ensures S[i][j] == M[i][j] {
        assert S[i][j] == X[i][j] + Y[i][j];
      }
      Extensional(S, M, L);
    }
    TotalAdd(X, Y);
  }

  /** Changing one entry of a row changes its sum by the same amount. */
  lemma {:induction false} SumUpdate(s: seq<int>, k: nat, v: int)
    requires k < |s|
    ensures Sum(s[k := v]) == Sum(s) + v - s[k]
  {
    var t := s[k := v];
    assert s == s[..k] + [s[k]] + s[k + 1..];
    assert t == s[..k] + [v] + s[k + 1..];
    SumAppend(s[..k] + [s[k]], s[k + 1..]);
    SumAppend(s[..k], [s[k]]);
    SumAppend(s[..k] + [v], s[k + 1..]);
    SumAppend(s[..k], [v]);
  }

  /** Changing one cell of a matrix changes its sum by the same amount. */
  lemma {:induction false} TotalUpdate(M: seq<seq<int>>, a: nat, b: nat, v: int)
    requires a < |M| && b < |M[a]|
    ensures Total(M[a := M[a][b := v]]) == Total(M) + v - M[a][b]
  {
    var n := |M| - 1;
    var M' := M[a := M[a][b := v]];
    if a == n {
      assert M'[..n] == M[..n];
      SumUpdate(M[a], b, v);
    } else {
      assert M'[..n] == M[..n][a := M[a][b := v]];
      TotalUpdate(M[..n], a, b, v);
    }
  }

  // ----------------------------------------------------------- real rows

  function SumR(s: seq<real>): real {
    if s == [] then 0.0 else SumR(s[..|s| - 1]) + s[|s| - 1]
  }

  lemma {:induction false} SumRPositive(s: seq<real>)
    requires s != []
    requires forall k :: 0 <= k < |s| ==> s[k] > 0.0
    ensures SumR(s) > 0.0
  {
    if |s| > 1 {
      SumRPositive(s[..|s| - 1]);
    }
  }

  /** A nonnegative row with one positive entry has a positive sum. */
  lemma {:induction false} SumRPositiveEntry(s: seq<real>, k: nat)
    requires k < |s| && s[k] > 0.0
    requires forall n :: 0 <= n < |s| ==> s[n] >= 0.0
    ensures SumR(s) > 0.0
  {
    var init := s[..|s| - 1];
    if k == |s| - 1 {
      SumRNonNegative(init);
    } else {
      SumRPositiveEntry(init, k);
    }
  }

  lemma {:induction false} SumRNonNegative(s: seq<real>)
    requires forall k :: 0 <= k < |s| ==> s[k] >= 0.0
    ensures SumR(s) >= 0.0
  {
    if s != [] {
      SumRNonNegative(s[..|s| - 1]);
    }
  }

  /** Dividing every entry by `d` divides the sum by `d`. */
  lemma {:induction false} SumRScaled(s: seq<real>, t: seq<real>, d: real)
    requires d != 0.0 && |s| == |t|
    requires forall k :: 0 <= k < |s| ==> t[k] == s[k] / d
    ensures SumR(t) == SumR(s) / d
  {
    if s != [] {
      var n := |s| - 1;
      SumRScaled(s[..n], t[..n], d);
      assert SumR(t) == SumR(s[..n]) / d + s[n] / d;
    }
  }
}
