/**
 * The left-to-right (feed-forward) variant `LTRHDPHMMTransitions`: its
 * reconstruction of the backward counts, and its upper-triangular `A`.
 */
module LeftToRight {
  import opened Matrices
  import opened Oracles
  import opened Outcomes
  import opened HdpHmm

  /** No backward step was counted: `(0 == np.tril(C, -1)).all()`. */
  predicate StrictlyLowerZero(C: seq<seq<nat>>) {
    forall i, j :: 0 <= j < i < |C| && j < |C[i]| ==> C[i][j] == 0
  }

  /** The drawn total of row `i`: the sum of one geometric variate per counted step out of `i`. */
  function RowDrawTotal(base: seq<seq<nat>>, geo: Geometric, i: nat): nat
    requires i < |base|
  {
    DrawTotal(geo, i, Sum(base[i]))
  }

  /**
   * Row `i` keeps its diagonal and upper part, and its first `i` columns are overwritten
   * with the multinomial split of the row's drawn total.
   */
  function Reconstructed(base: seq<seq<nat>>, geo: Geometric, mu: Multinomial): (C: seq<seq<nat>>)
    requires IsSquare(base, |base|) && IsMultinomial(mu)
    ensures IsSquare(C, |base|)
  {
    assert forall i :: 0 <= i < |base| ==> |mu(i, RowDrawTotal(base, geo, i))| == i;
    seq(|base|, i requires 0 <= i < |base| => mu(i, RowDrawTotal(base, geo, i)) + base[i][i..])
  }

  /**
   * `_count_transitions` of the left-to-right variant, applied to the base counts: the
   * assertion that no step goes backward, then the reconstruction.
   */
  ghost function CountOutcome(base: seq<seq<nat>>, geo: Geometric, mu: Multinomial): (r: Result<seq<seq<nat>>>)
    requires IsSquare(base, |base|) && IsMultinomial(mu)
    ensures r.Ok? ==> IsSquare(r.value, |base|)
    ensures r.Raised? ==> r.fault == AssertionFailed
  {
    if StrictlyLowerZero(base) then Ok(Reconstructed(base, geo, mu)) else Raised(AssertionFailed)
  }

  /**
   * The reconstruction leaves the diagonal and the upper triangle as counted and row 0
   * as it was; the strictly-lower part of row `i > 0` adds up to the drawn total, which is
   * at least the row's count and 0 exactly when the row had no transitions.
   */
  lemma ReconstructionProperties(base: seq<seq<nat>>, geo: Geometric, mu: Multinomial)
    requires IsSquare(base, |base|) && IsGeometric(geo) && IsMultinomial(mu)
    ensures forall i, j :: 0 <= i <= j < |base| ==> Reconstructed(base, geo, mu)[i][j] == base[i][j]
    ensures |base| > 0 ==> Reconstructed(base, geo, mu)[0] == base[0]
    ensures forall i :: 0 < i < |base| ==>
      var tot := RowDrawTotal(base, geo, i);
      Sum(Reconstructed(base, geo, mu)[i][..i]) == tot &&
      tot >= Sum(base[i]) &&
      (tot == 0 <==> Sum(base[i]) == 0)
  {
    var C := Reconstructed(base, geo, mu);
    forall i | 0 <= i < |base|
      ensures C[i][..i] == mu(i, RowDrawTotal(base, geo, i))
      ensures forall j :: i <= j < |base| ==> C[i][j] == base[i][j]
      ensures RowDrawTotal(base, geo, i) >= Sum(base[i])
      ensures RowDrawTotal(base, geo, i) == 0 <==> Sum(base[i]) == 0
    {
      var split := mu(i, RowDrawTotal(base, geo, i));
      assert |split| == i;
      assert C[i] == split + base[i][i..];
      DrawTotalAtLeastCount(geo, i, Sum(base[i]));
    }
    if |base| > 0 {
      assert C[0] == mu(0, RowDrawTotal(base, geo, 0)) + base[0][0..];
      assert |mu(0, RowDrawTotal(base, geo, 0))| == 0;
      assert base[0][0..] == base[0];
    }
  }

  /** `np.triu(X)`: the diagonal and the upper triangle of `X`, zeros below. */
  function UpperPart(X: seq<seq<real>>): (U: seq<seq<real>>)
    ensures |U| == |X| && forall i :: 0 <= i < |X| ==> |U[i]| == |X[i]|
  {
    seq(|X|, i requires 0 <= i < |X| => seq(|X[i]|, j requires 0 <= j < |X[i]| => if j >= i then X[i][j] else 0.0))
  }

  /** The upper part of a positive square matrix has a positive sum in every row. */
  lemma UpperPartRowSums(X: seq<seq<real>>)
    requires IsSquare(X, |X|) && PositiveR(X)
    ensures NonNegativeR(UpperPart(X)) && PositiveRowSums(UpperPart(X))
  {
    var U := UpperPart(X);
    forall i | 0 <= i < |X| ensures SumR(U[i]) > 0.0 {
      SumRPositiveEntry(U[i], i);
    }
  }

  /** `A` of the left-to-right variant: `np.triu(fullA)` with its rows normalised. */
  ghost function MaskedA(fullA: seq<seq<real>>): (A: seq<seq<real>>)
    requires IsSquare(fullA, |fullA|) && PositiveR(fullA)
    ensures IsSquare(A, |fullA|)
  {
    UpperPartRowSums(fullA);
    NormalizeRows(UpperPart(fullA))
  }

  /**
   * From a positive `fullA`, the masked `A` is zero strictly below the diagonal, positive
   * on and above it, and each of its rows sums to 1.
   */
  lemma MaskedAPattern(fullA: seq<seq<real>>)
    requires IsSquare(fullA, |fullA|) && PositiveR(fullA)
    ensures IsSquare(MaskedA(fullA), |fullA|)
    ensures forall i, j :: 0 <= j < i < |fullA| ==> MaskedA(fullA)[i][j] == 0.0
    ensures forall i, j :: 0 <= i <= j < |fullA| ==> MaskedA(fullA)[i][j] > 0.0
    ensures forall i :: 0 <= i < |fullA| ==> SumR(MaskedA(fullA)[i]) == 1.0
  {
    UpperPartRowSums(fullA);
    NormalizedRows(UpperPart(fullA));
  }
}
