/**
 * The sticky variants `StickyHDPHMMTransitions` and `StickyLTRHDPHMMTransitions`:
 * the binomial split of the diagonal table counts into `newm`, and the extra
 * self-transition mass `kappa` added to the diagonal before `A` is drawn.
 */
module Sticky {
  import opened Matrices
  import opened Oracles
  import opened HdpHmm

  /**
   * `newm`: a copy of `m` whose nonzero diagonal entries are replaced by a binomial
   * variate out of `m[i][i]` (nothing is drawn when `m` sums to 0).
   */
  function StickySplit(m: seq<seq<nat>>, bin: Binomial): (newm: seq<seq<nat>>)
    requires IsSquare(m, |m|)
    ensures IsSquare(newm, |m|)
  {
    if Total(m) > 0 then DiagonalReplaced(m, DiagonalDraws(m, bin)) else m
  }

  /** The diagonal of the split: a binomial variate out of each nonzero `m[i][i]`, the zeros kept. */
  function DiagonalDraws(m: seq<seq<nat>>, bin: Binomial): (d: seq<nat>)
    requires IsSquare(m, |m|)
    ensures |d| == |m|
  {
    seq(|m|, i requires 0 <= i < |m| => if m[i][i] > 0 then bin(i, m[i][i]) else m[i][i])
  }

  /** `m` with each diagonal entry `m[i][i]` replaced by `d[i]`. */
  function DiagonalReplaced(m: seq<seq<nat>>, d: seq<nat>): (C: seq<seq<nat>>)
    requires IsSquare(m, |m|) && |d| == |m|
    ensures IsSquare(C, |m|)
    ensures forall i, j :: 0 <= i < |m| && 0 <= j < |m| ==> C[i][j] == if i == j then d[i] else m[i][j]
  {
    seq(|m|, i requires 0 <= i < |m| => m[i][i := d[i]])
  }

  /** `m - newm`: the table counts credited to `kappa`. */
  function Difference(m: seq<seq<nat>>, newm: seq<seq<nat>>): (D: seq<seq<int>>)
    requires IsSquare(m, |m|) && IsSquare(newm, |m|)
    ensures IsSquare(D, |m|)
    ensures forall i, j :: 0 <= i < |m| && 0 <= j < |m| ==> D[i][j] + newm[i][j] == m[i][j]
  {
    seq(|m|, i requires 0 <= i < |m| => seq(|m|, j requires 0 <= j < |m| => m[i][j] as int - newm[i][j]))
  }

  /**
   * The counts added to the two parameters of the Beta posterior of `rho`,
   * `(m - newm).sum()` and `newm.sum()`: together they are the sum of `m`, and both are
   * nonnegative when `m - newm` is.
   */
  function RhoCounts(m: seq<seq<nat>>, newm: seq<seq<nat>>): (r: (int, int))
    requires IsSquare(m, |m|) && IsSquare(newm, |m|)
    ensures r.0 + r.1 == Total(m)
    ensures r.1 >= 0 && (NonNegative(Difference(m, newm)) ==> r.0 >= 0)
  {
    TotalOfParts(Difference(m, newm), newm, m, |m|);
    (Total(Difference(m, newm)), Total(newm))
  }

  /**
   * `newm` agrees with `m` off the diagonal and wherever `m[i][i] == 0`, and
   * `0 <= newm[i][i] <= m[i][i]`; so `m - newm` is nonnegative and the two Beta counts
   * of `rho` are nonnegative and add up to the sum of `m`.
   */
  lemma SplitWithinTableCounts(m: seq<seq<nat>>, bin: Binomial)
    requires IsSquare(m, |m|) && IsBinomial(bin)
    ensures forall i, j :: 0 <= i < |m| && 0 <= j < |m| && (i != j || m[i][i] == 0) ==>
      StickySplit(m, bin)[i][j] == m[i][j]
    ensures forall i :: 0 <= i < |m| ==> StickySplit(m, bin)[i][i] <= m[i][i]
    ensures NonNegative(Difference(m, StickySplit(m, bin)))
    ensures RhoCounts(m, StickySplit(m, bin)).0 >= 0 && RhoCounts(m, StickySplit(m, bin)).1 >= 0
    ensures RhoCounts(m, StickySplit(m, bin)).0 + RhoCounts(m, StickySplit(m, bin)).1 == Total(m)
  {
    SplitCellBounds(m, bin);
    DifferenceOfSmaller(m, StickySplit(m, bin));
  }

  lemma SplitCellBounds(m: seq<seq<nat>>, bin: Binomial)
    requires IsSquare(m, |m|) && IsBinomial(bin)
    ensures forall i, j :: 0 <= i < |m| && 0 <= j < |m| && (i != j || m[i][i] == 0) ==>
      StickySplit(m, bin)[i][j] == m[i][j]
    ensures forall i, j :: 0 <= i < |m| && 0 <= j < |m| ==> StickySplit(m, bin)[i][j] <= m[i][j]
  {
  }

  /** When `newm <= m` cell by cell, `m - newm` is nonnegative and the two sums add up to that of `m`. */
  lemma DifferenceOfSmaller(m: seq<seq<nat>>, newm: seq<seq<nat>>)
    requires IsSquare(m, |m|) && IsSquare(newm, |m|)
    requires forall i, j :: 0 <= i < |m| && 0 <= j < |m| ==> newm[i][j] <= m[i][j]
    ensures NonNegative(Difference(m, newm))
    ensures Total(Difference(m, newm)) + Total(newm) == Total(m)
  {
    var D := Difference(m, newm);
    forall i, j | 0 <= i < |D| && 0 <= j < |D[i]| ensures D[i][j] >= 0 {
    }
    TotalOfParts(D, newm, m, |m|);
  }

  /**
   * The gamma-shape counts with `kappa` added on the diagonal (`data + np.diag(kappa * ones)`):
   * they differ from `X` only on the diagonal, by `kappa` in each entry, and stay
   * nonnegative when `kappa` is.
   */
  function AddDiagonal(X: seq<seq<real>>, kappa: real): (Y: seq<seq<real>>)
    ensures |Y| == |X| && forall i :: 0 <= i < |X| ==> |Y[i]| == |X[i]|
    ensures forall i, j :: 0 <= i < |X| && 0 <= j < |X[i]| ==>
      Y[i][j] - X[i][j] == if i == j then kappa else 0.0
    ensures kappa >= 0.0 && NonNegativeR(X) ==> NonNegativeR(Y)
  {
    seq(|X|, i requires 0 <= i < |X| => seq(|X[i]|, j requires 0 <= j < |X[i]| => if i == j then X[i][j] + kappa else X[i][j]))
  }

  // ----------------------------------------------------------- as written

  /**
   * The sticky `_resample_beta` writes its binomial draws through `newm.flat[::L + 1]`,
   * a copy of the diagonal, so `newm` stays equal to `m`. A split that would draw fewer
   * tables than `m` holds is lost: here one state, two tables, and no table kept.
   */
  lemma SplitLostByDiagonalCopy()
    ensures var bin: Binomial := (i, n) => 0;
      IsBinomial(bin) && StickySplit([[2]], bin) == [[0]] && StickySplit([[2]], bin) != [[2]]
  {
    var bin: Binomial := (i, n) => 0;
    var m: seq<seq<nat>> := [[2]];
    assert Total(m) == 2 by {
      assert m[..0] == [];
      assert Sum(m[0]) == 2 by { assert m[0][..0] == []; }
    }
    Extensional(StickySplit(m, bin), [[0]], 1);
  }

  /**
   * `StickyLTRHDPHMMTransitions._resample_A` adds `kappa` and calls the left-to-right
   * `_resample_A`, whose `super()` is the sticky `_resample_A`, which adds `kappa` again.
   */
  function StickyLeftToRightDataAsWritten(data: seq<seq<real>>, kappa: real): (Y: seq<seq<real>>)
    ensures |Y| == |data| && forall i :: 0 <= i < |data| ==> |Y[i]| == |data[i]|
    ensures forall i, j :: 0 <= i < |data| && 0 <= j < |data[i]| ==>
      Y[i][j] - data[i][j] == if i == j then 2.0 * kappa else 0.0
  {
    AddDiagonal(AddDiagonal(data, kappa), kappa)
  }

  /** As written, the diagonal receives `2 * kappa`, so any positive `kappa` is counted twice. */
  lemma StickyLeftToRightAddsKappaTwice(data: seq<seq<real>>, kappa: real)
    requires IsSquare(data, |data|) && |data| > 0
    ensures forall i :: 0 <= i < |data| ==>
      StickyLeftToRightDataAsWritten(data, kappa)[i][i] == data[i][i] + 2.0 * kappa
    ensures kappa != 0.0 ==> StickyLeftToRightDataAsWritten(data, kappa) != AddDiagonal(data, kappa)
  {
    if kappa != 0.0 {
      assert StickyLeftToRightDataAsWritten(data, kappa)[0][0] != AddDiagonal(data, kappa)[0][0];
    }
  }
}
