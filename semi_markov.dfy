/**
 * The explicit-duration variant `HDPHSMMTransitions`: counts over run-length
 * collapsed sequences, the geometric self-transition augmentation, and the
 * zero-diagonal `A`.
 */
module SemiMarkov {
  import opened Matrices
  import opened Oracles
  import opened HdpHmm

  /** No label repeats its predecessor, as in the label column of a run-length encoding. */
  ghost predicate NoRepeats(seqs: seq<seq<int>>) {
    forall n, k :: 0 <= n < |seqs| && 0 <= k < |seqs[n]| - 1 ==> seqs[n][k] != seqs[n][k + 1]
  }

  lemma {:induction false} NoRepeatsInSequence(s: seq<int>, i: int)
    requires forall k :: 0 <= k < |s| - 1 ==> s[k] != s[k + 1]
    ensures PairCount(s, i, i) == 0
    decreases |s|
  {
    if |s| >= 2 {
      NoRepeatsInSequence(s[..|s| - 1], i);
    }
  }

  /** Sequences without repeats never count a self-transition. */
  lemma {:induction false} NoSelfTransitions(seqs: seq<seq<int>>, i: int)
    requires NoRepeats(seqs)
    ensures CountIn(seqs, i, i) == 0
    decreases |seqs|
  {
    if seqs != [] {
      var n := |seqs| - 1;
      assert forall m, k :: 0 <= m < n && 0 <= k < |seqs[..n][m]| - 1 ==> seqs[..n][m][k] == seqs[m][k];
      NoSelfTransitions(seqs[..n], i);
      NoRepeatsInSequence(seqs[n], i);
    }
  }

  /**
   * The self-transitions drawn for each state: the sum of one geometric variate per
   * counted step out of the state, and 0 for a state that was never left.
   */
  function SelfTransitions(counts: seq<seq<nat>>, geo: Geometric): (r: seq<nat>)
    requires IsSquare(counts, |counts|)
    ensures |r| == |counts|
  {
    seq(|counts|, i requires 0 <= i < |counts| =>
      var n := Sum(counts[i]);
      if n > 0 then DrawTotal(geo, i, n) else 0)
  }

  /** `_augment_data`: a copy of the counts with the drawn self-transitions added on the diagonal. */
  function Augmented(counts: seq<seq<nat>>, geo: Geometric): (C: seq<seq<nat>>)
    requires IsSquare(counts, |counts|)
    ensures IsSquare(C, |counts|)
  {
    if Total(counts) > 0 then DiagonalAdded(counts, SelfTransitions(counts, geo)) else counts
  }

  /** `counts` with `extra[i]` added to each diagonal entry `counts[i][i]`. */
  function DiagonalAdded(counts: seq<seq<nat>>, extra: seq<nat>): (C: seq<seq<nat>>)
    requires IsSquare(counts, |counts|) && |extra| == |counts|
    ensures IsSquare(C, |counts|)
    ensures forall i, j :: 0 <= i < |counts| && 0 <= j < |counts| ==>
      C[i][j] == if i == j then counts[i][i] + extra[i] else counts[i][j]
  {
    seq(|counts|, i requires 0 <= i < |counts| => counts[i][i := counts[i][i] + extra[i]])
  }

  /**
   * The augmentation changes the diagonal only, and there by a nonnegative amount: none
   * when the matrix or the state's row sums to 0, otherwise the drawn total, which is at
   * least the row's count.
   */
  lemma AugmentedProperties(counts: seq<seq<nat>>, geo: Geometric)
    requires IsSquare(counts, |counts|) && IsGeometric(geo)
    ensures forall i, j :: 0 <= i < |counts| && 0 <= j < |counts| && i != j ==>
      Augmented(counts, geo)[i][j] == counts[i][j]
    ensures forall i :: 0 <= i < |counts| ==>
      var added := Augmented(counts, geo)[i][i] - counts[i][i];
      added >= 0 &&
      (Total(counts) == 0 || Sum(counts[i]) == 0 ==> added == 0) &&
      (Total(counts) > 0 && Sum(counts[i]) > 0 ==> added == DrawTotal(geo, i, Sum(counts[i])) >= Sum(counts[i]))
  {
    forall i | 0 <= i < |counts| {
      DrawTotalAtLeastCount(geo, i, Sum(counts[i]));
    }
  }

  /** On collapsed sequences the augmented diagonal holds exactly the drawn self-transitions. */
  lemma AugmentedDiagonal(seqs: seq<seq<int>>, L: nat, geo: Geometric)
    requires NoRepeats(seqs)
    ensures forall i :: 0 <= i < L ==>
      Augmented(CountMatrix(seqs, L), geo)[i][i] ==
        if Total(CountMatrix(seqs, L)) > 0 then SelfTransitions(CountMatrix(seqs, L), geo)[i] else 0
  {
    forall i | 0 <= i < L {
      NoSelfTransitions(seqs, i);
    }
  }

  /** The diagonal of `X` set to zero (`A.flat[::L + 1] = 0`). */
  function ZeroDiagonal(X: seq<seq<real>>): (Z: seq<seq<real>>)
    ensures |Z| == |X| && forall i :: 0 <= i < |X| ==> |Z[i]| == |X[i]|
  {
    seq(|X|, i requires 0 <= i < |X| => seq(|X[i]|, j requires 0 <= j < |X[i]| => if i == j then 0.0 else X[i][j]))
  }

  /** With two states or more, every row of a positive matrix keeps a positive entry off the diagonal. */
  lemma ZeroDiagonalRowSums(X: seq<seq<real>>)
    requires |X| >= 2 && IsSquare(X, |X|) && PositiveR(X)
    ensures NonNegativeR(ZeroDiagonal(X)) && PositiveRowSums(ZeroDiagonal(X))
  {
    var Z := ZeroDiagonal(X);
    forall i | 0 <= i < |X| ensures SumR(Z[i]) > 0.0 {
      SumRPositiveEntry(Z[i], if i == 0 then 1 else 0);
    }
  }

  /** `A` of the semi-Markov variant: `fullA` with a zero diagonal, rows normalised. */
  ghost function SemiMarkovA(fullA: seq<seq<real>>): (A: seq<seq<real>>)
    requires |fullA| >= 2 && IsSquare(fullA, |fullA|) && PositiveR(fullA)
    ensures IsSquare(A, |fullA|)
  {
    ZeroDiagonalRowSums(fullA);
    NormalizeRows(ZeroDiagonal(fullA))
  }

  /**
   * The semi-Markov `A` has a zero diagonal, positive entries elsewhere, and rows
   * summing to 1.
   */
  lemma SemiMarkovAPattern(fullA: seq<seq<real>>)
    requires |fullA| >= 2 && IsSquare(fullA, |fullA|) && PositiveR(fullA)
    ensures IsSquare(SemiMarkovA(fullA), |fullA|)
    ensures forall i :: 0 <= i < |fullA| ==> SemiMarkovA(fullA)[i][i] == 0.0
    ensures forall i, j :: 0 <= i < |fullA| && 0 <= j < |fullA| && i != j ==> SemiMarkovA(fullA)[i][j] > 0.0
    ensures forall i :: 0 <= i < |fullA| ==> SumR(SemiMarkovA(fullA)[i]) == 1.0
  {
    ZeroDiagonalRowSums(fullA);
    NormalizedRows(ZeroDiagonal(fullA));
  }
}
