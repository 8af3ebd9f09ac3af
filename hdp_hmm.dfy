/**
 * The values computed by the base weak-limit HDP-HMM transition sampler
 * (`HDPHMMTransitions`): the transition counts of a list of state sequences,
 * the CRP table counts `m`, the Dirichlet parameter of `beta`, and the
 * row-normalised gamma draws that make up `A`.
 */
module HdpHmm {
  import opened Matrices
  import opened Oracles
  import opened Outcomes

  // ------------------------------------------------------------ counting

  /** Every label of every sequence is a state of the weak limit, in [0, L). */
  ghost predicate LabelsInRange(seqs: seq<seq<int>>, L: nat) {
    forall n, k :: 0 <= n < |seqs| && 0 <= k < |seqs[n]| ==> 0 <= seqs[n][k] < L
  }

  /** The number of adjacent `(i, j)` pairs of `s`, counted from the left. */
  function PairCount(s: seq<int>, i: int, j: int): nat {
    if |s| < 2 then 0
    else PairCount(s[..|s| - 1], i, j) + (if s[|s| - 2] == i && s[|s| - 1] == j then 1 else 0)
  }

  /** `s` steps from `i` to `j` at position `k`. */
  ghost predicate StepAt(s: seq<int>, k: int, i: int, j: int) {
    0 <= k < |s| - 1 && s[k] == i && s[k + 1] == j
  }

  /** The positions where `s` steps from `i` to `j`. */
  ghost function PairPositions(s: seq<int>, i: int, j: int): set<int> {
    set k | 0 <= k < |s| - 1 && StepAt(s, k, i, j)
  }

  /** `PairCount` counts exactly the positions of the adjacent `(i, j)` pairs. */
  lemma {:induction false} PairCountIsNumberOfPairs(s: seq<int>, i: int, j: int)
    ensures PairCount(s, i, j) == |PairPositions(s, i, j)|
    decreases |s|
  {
    if |s| < 2 {
      assert PairPositions(s, i, j) == {};
    } else {
      var t := s[..|s| - 1];
      var last := |s| - 2;
      PairCountIsNumberOfPairs(t, i, j);
      if s[last] == i && s[last + 1] == j {
        assert PairPositions(s, i, j) == PairPositions(t, i, j) + {last};
      } else {
        assert PairPositions(s, i, j) == PairPositions(t, i, j);
      }
    }
  }

  /** Extending a prefix of `s` by one element adds the pair it completes. */
  lemma PairCountExtend(s: seq<int>, k: nat)
    requires k + 1 < |s|
    ensures forall i, j {:trigger PairCount(s[..k + 2], i, j)} ::
      (PairCount(s[..k + 2], i, j) == PairCount(s[..k + 1], i, j) + if s[k] == i && s[k + 1] == j then 1 else 0)
  {
    assert s[..k + 2][..k + 1] == s[..k + 1];
  }

  /** Adjacent `(i, j)` pairs across all the sequences. */
  function CountIn(seqs: seq<seq<int>>, i: int, j: int): nat {
    if seqs == [] then 0 else CountIn(seqs[..|seqs| - 1], i, j) + PairCount(seqs[|seqs| - 1], i, j)
  }

  /** The matrix `_count_transitions` tallies: cell `(i, j)` counts the `i -> j` steps. */
  function CountMatrix(seqs: seq<seq<int>>, L: nat): (C: seq<seq<nat>>)
    ensures IsSquare(C, L)
  {
    seq(L, i => seq(L, j => CountIn(seqs, i, j)))
  }

  /** The number of steps in the sequences: `len - 1` for each one of length 2 or more. */
  function TotalSteps(seqs: seq<seq<int>>): nat {
    if seqs == [] then 0
    else
      var s := seqs[|seqs| - 1];
      TotalSteps(seqs[..|seqs| - 1]) + (if |s| >= 2 then |s| - 1 else 0)
  }

  lemma {:induction false} CountInAdditive(a: seq<seq<int>>, b: seq<seq<int>>, i: int, j: int)
    ensures CountIn(a + b, i, j) == CountIn(a, i, j) + CountIn(b, i, j)
    decreases |b|
  {
    if b == [] {
      assert a + b == a;
    } else {
      assert (a + b)[..|a + b| - 1] == a + b[..|b| - 1];
      CountInAdditive(a, b[..|b| - 1], i, j);
    }
  }

  /**
   * Counting a list of sequences gives the cell-wise sum of counting its two parts,
   * and counting no sequences gives the zero matrix.
   */
  lemma CountMatrixAdditive(a: seq<seq<int>>, b: seq<seq<int>>, L: nat)
    ensures CountMatrix(a + b, L) == Add(CountMatrix(a, L), CountMatrix(b, L))
    ensures CountMatrix([], L) == Zero(L)
  {
    forall i, j | 0 <= i < L && 0 <= j < L
      ensures CountMatrix(a + b, L)[i][j] == Add(CountMatrix(a, L), CountMatrix(b, L))[i][j]
    {
      CountInAdditive(a, b, i, j);
    }
    Extensional(CountMatrix(a + b, L), Add(CountMatrix(a, L), CountMatrix(b, L)), L);
    Extensional(CountMatrix([], L), Zero(L), L);
  }

  /** One sequence with labels in range contributes `len - 1` steps (none when shorter than 2). */
  lemma {:induction false} SequenceTotal(s: seq<int>, L: nat)
    requires forall k :: 0 <= k < |s| ==> 0 <= s[k] < L
    ensures Total(CountMatrix([s], L)) == if |s| >= 2 then |s| - 1 else 0
    decreases |s|
  {
    var C := CountMatrix([s], L);
    assert [s][..0] == [];
    if |s| < 2 {
      forall i, j | 0 <= i < L && 0 <= j < L ensures C[i][j] == 0 {
        assert C[i][j] == CountIn([], i, j) + PairCount(s, i, j);
      }
      TotalNonNegative(C);
    } else {
      var t := s[..|s| - 1];
      var a, b := s[|s| - 2], s[|s| - 1];
      var D := CountMatrix([t], L);
      assert [t][..0] == [];
      SequenceTotal(t, L);
      assert C == D[a := D[a][b := D[a][b] + 1]] by {
        forall i, j | 0 <= i < L && 0 <= j < L
          ensures C[i][j] == D[a := D[a][b := D[a][b] + 1]][i][j]
        {
        }
        Extensional(C, D[a := D[a][b := D[a][b] + 1]], L);
      }
      TotalUpdate(D, a, b, D[a][b] + 1);
    }
  }

  /** The counts add up to the number of steps, `sum(max(len - 1, 0))`. */
  lemma {:induction false} CountTotal(seqs: seq<seq<int>>, L: nat)
    requires LabelsInRange(seqs, L)
    ensures Total(CountMatrix(seqs, L)) == TotalSteps(seqs)
    decreases |seqs|
  {
    if seqs != [] {
      var n := |seqs| - 1;
      var init, s := seqs[..n], seqs[n];
      assert seqs == init + [s];
      assert forall m :: 0 <= m < n ==> init[m] == seqs[m];
      CountTotal(init, L);
      SequenceTotal(s, L);
      CountMatrixAdditive(init, [s], L);
      TotalAdd(CountMatrix(init, L), CountMatrix([s], L));
    } else {
      CountMatrixAdditive([], [], L);
      TotalNonNegative(Zero(L));
    }
  }

  // ------------------------------------------------------- table counts

  /** The CRP weight `alpha * beta[j]` of each column. */
  function Weights(alpha: real, beta: seq<real>): (w: seq<real>)
    ensures |w| == |beta|
  {
    seq(|beta|, j requires 0 <= j < |beta| => alpha * beta[j])
  }

  /** How many of the first `n` trials of cell `(i, j)` succeed. */
  function Successes(coins: Coins, i: nat, j: nat, n: nat): nat {
    if n == 0 then 0 else Successes(coins, i, j, n - 1) + (if coins(i, j, n - 1) then 1 else 0)
  }

  /**
   * Some cell with a positive count sits in a column of weight 0: its first trial's
   * probability `0 / (0 + 0)` is invalid.
   */
  ghost predicate ZeroWeightFault(counts: seq<seq<nat>>, weight: seq<real>)
    requires IsSquare(counts, |weight|)
  {
    exists i, j :: 0 <= i < |weight| && 0 <= j < |weight| && counts[i][j] > 0 && weight[j] == 0.0
  }

  /**
   * `_get_m`: the zero matrix when every count is zero; otherwise cell `(i, j)` holds the
   * successes among its `counts[i][j]` trials, unless a zero-weight column makes numpy raise.
   */
  ghost function TableCounts(counts: seq<seq<nat>>, weight: seq<real>, coins: Coins): (r: Result<seq<seq<nat>>>)
    requires IsSquare(counts, |weight|)
    ensures r.Ok? ==> IsSquare(r.value, |weight|)
    ensures r.Raised? ==> r.fault == InvalidOperation
  {
    var L := |weight|;
    if AllZero(counts) then Ok(Zero(L))
    else if ZeroWeightFault(counts, weight) then Raised(InvalidOperation)
    else Ok(seq(L, i requires 0 <= i < L => seq(L, j requires 0 <= j < L => Successes(coins, i, j, counts[i][j]))))
  }

  /** Out of `n` trials at most `n` succeed, and at least one when the first always does. */
  lemma {:induction false} SuccessesBounds(coins: Coins, i: nat, j: nat, n: nat)
    ensures Successes(coins, i, j, n) <= n
    ensures n > 0 && coins(i, j, 0) ==> Successes(coins, i, j, n) >= 1
  {
    if n > 0 {
      SuccessesBounds(coins, i, j, n - 1);
    }
  }

  /**
   * `_get_m` raises exactly on a zero-weight fault; otherwise `0 <= m <= counts` cell-wise,
   * `m` is 0 where the count is 0 (everywhere when all counts are 0), and at least 1
   * where the count and the column weight are positive and the first trial succeeds
   * (its probability is 1).
   */
  lemma TableCountsProperties(counts: seq<seq<nat>>, weight: seq<real>, coins: Coins)
    requires IsSquare(counts, |weight|)
    ensures TableCounts(counts, weight, coins).Raised? <==> ZeroWeightFault(counts, weight)
    ensures AllZero(counts) ==> TableCounts(counts, weight, coins) == Ok(Zero(|weight|))
    ensures TableCounts(counts, weight, coins).Ok? ==>
      var m := TableCounts(counts, weight, coins).value;
      IsSquare(m, |weight|) &&
      forall i, j :: 0 <= i < |weight| && 0 <= j < |weight| ==>
        m[i][j] <= counts[i][j] &&
        (counts[i][j] == 0 ==> m[i][j] == 0) &&
        (FirstTrialSucceeds(coins, weight) && counts[i][j] > 0 && weight[j] > 0.0 ==> m[i][j] >= 1)
  {
    var L := |weight|;
    if ZeroWeightFault(counts, weight) {
      var i, j :| 0 <= i < L && 0 <= j < L && counts[i][j] > 0 && weight[j] == 0.0;
      assert !AllZero(counts);
    }
    forall i, j | 0 <= i < L && 0 <= j < L {
      SuccessesBounds(coins, i, j, counts[i][j]);
    }
  }

  // --------------------------------------------------------------- beta

  /**
   * The Dirichlet parameter of `_resample_beta`: `gamma / L + m.sum(0) + 1e-2`, one entry
   * per state and, for a nonnegative `gamma`, every entry at least `1e-2`.
   */
  function BetaParams(gamma: real, m: seq<seq<nat>>, L: nat): (p: seq<real>)
    requires L > 0 && IsSquare(m, L)
    ensures |p| == L
    ensures gamma >= 0.0 ==> forall j :: 0 <= j < L ==> p[j] >= 0.01
  {
    seq(L, j requires 0 <= j < L => gamma / (L as real) + (ColSum(m, j) as real) + 0.01)
  }

  // ------------------------------------------------------------------ A

  ghost predicate NonNegativeR(X: seq<seq<real>>) {
    forall i, j :: 0 <= i < |X| && 0 <= j < |X[i]| ==> X[i][j] >= 0.0
  }

  ghost predicate PositiveR(X: seq<seq<real>>) {
    forall i, j :: 0 <= i < |X| && 0 <= j < |X[i]| ==> X[i][j] > 0.0
  }

  /** A count matrix as real numbers. */
  function ToReal(C: seq<seq<nat>>): (R: seq<seq<real>>)
    ensures |R| == |C| && forall i :: 0 <= i < |C| ==> |R[i]| == |C[i]|
    ensures forall i, j :: 0 <= i < |C| && 0 <= j < |C[i]| ==> R[i][j] == C[i][j] as real
  {
    seq(|C|, i requires 0 <= i < |C| => seq(|C[i]|, j requires 0 <= j < |C[i]| => C[i][j] as real))
  }

  /** The gamma shapes of `_resample_A`: `alpha * beta + data + 1e-2`. */
  function Shape(alpha: real, beta: seq<real>, data: seq<seq<real>>): (S: seq<seq<real>>)
    requires IsSquare(data, |beta|)
    ensures IsSquare(S, |beta|)
    ensures alpha >= 0.0 && (forall j :: 0 <= j < |beta| ==> beta[j] >= 0.0) && NonNegativeR(data) ==>
      forall i, j :: 0 <= i < |beta| && 0 <= j < |beta| ==> S[i][j] >= 0.01
  {
    seq(|beta|, i requires 0 <= i < |beta| =>
      seq(|beta|, j requires 0 <= j < |beta| => alpha * beta[j] + data[i][j] + 0.01))
  }

  /** `stats.gamma.rvs(shape)`: one gamma variate per cell. */
  function GammaDraws(shape: seq<seq<real>>, gv: GammaVariates): (G: seq<seq<real>>)
    ensures |G| == |shape| && forall i :: 0 <= i < |shape| ==> |G[i]| == |shape[i]|
  {
    seq(|shape|, i requires 0 <= i < |shape| =>
      seq(|shape[i]|, j requires 0 <= j < |shape[i]| => gv(i, j, shape[i][j])))
  }

  function RowSums(X: seq<seq<real>>): (r: seq<real>)
    ensures |r| == |X| && forall i :: 0 <= i < |X| ==> r[i] == SumR(X[i])
  {
    seq(|X|, i requires 0 <= i < |X| => SumR(X[i]))
  }

  ghost predicate PositiveRowSums(X: seq<seq<real>>) {
    forall i :: 0 <= i < |X| ==> SumR(X[i]) > 0.0
  }

  /** `X / X.sum(1)[:, na]`: each row divided by its sum. */
  function NormalizeRows(X: seq<seq<real>>): (N: seq<seq<real>>)
    requires PositiveRowSums(X)
    ensures |N| == |X| && forall i :: 0 <= i < |X| ==> |N[i]| == |X[i]|
  {
    seq(|X|, i requires 0 <= i < |X| =>
      seq(|X[i]|, j requires 0 <= j < |X[i]| => X[i][j] / SumR(X[i])))
  }

  /**
   * Normalising a nonnegative matrix whose rows have positive sums gives rows that are
   * probability vectors, zero exactly where the matrix was zero.
   */
  lemma NormalizedRows(X: seq<seq<real>>)
    requires NonNegativeR(X) && PositiveRowSums(X)
    ensures NonNegativeR(NormalizeRows(X))
    ensures forall i, j :: 0 <= i < |X| && 0 <= j < |X[i]| ==>
      (NormalizeRows(X)[i][j] == 0.0 <==> X[i][j] == 0.0)
    ensures forall i :: 0 <= i < |X| ==> SumR(NormalizeRows(X)[i]) == 1.0
  {
    var N := NormalizeRows(X);
    forall i | 0 <= i < |X| ensures SumR(N[i]) == 1.0 {
      var d := SumR(X[i]);
      SumRScaled(X[i], N[i], d);
      assert d > 0.0;
      assert SumR(N[i]) == d / d;
      assert d / d == 1.0;
    }
  }

  /** With positive gamma shapes every gamma variate is positive, so every row sum is too. */
  lemma GammaDrawsPositive(alpha: real, beta: seq<real>, data: seq<seq<real>>, gv: GammaVariates)
    requires |beta| > 0 && IsSquare(data, |beta|)
    requires alpha >= 0.0 && (forall j :: 0 <= j < |beta| ==> beta[j] >= 0.0) && NonNegativeR(data)
    requires IsGammaVariates(gv)
    ensures PositiveR(GammaDraws(Shape(alpha, beta, data), gv))
    ensures PositiveRowSums(GammaDraws(Shape(alpha, beta, data), gv))
  {
    var S := Shape(alpha, beta, data);
    var G := GammaDraws(S, gv);
    forall i, j | 0 <= i < |beta| && 0 <= j < |beta| ensures G[i][j] > 0.0 {
      assert alpha * beta[j] >= 0.0;
      assert S[i][j] > 0.0;
    }
    forall i | 0 <= i < |beta| ensures SumR(G[i]) > 0.0 {
      SumRPositive(G[i]);
    }
  }

  /**
   * `_resample_A`: gamma variates with shapes `alpha * beta + data + 1e-2`, rows normalised.
   * The result is a positive square matrix whose rows sum to 1.
   */
  ghost function ResampledA(alpha: real, beta: seq<real>, data: seq<seq<real>>, gv: GammaVariates): (A: seq<seq<real>>)
    requires |beta| > 0 && IsSquare(data, |beta|)
    requires alpha >= 0.0 && (forall j :: 0 <= j < |beta| ==> beta[j] >= 0.0) && NonNegativeR(data)
    requires IsGammaVariates(gv)
    ensures IsSquare(A, |beta|)
    ensures PositiveR(A)
    ensures forall i :: 0 <= i < |beta| ==> SumR(A[i]) == 1.0
  {
    var G := GammaDraws(Shape(alpha, beta, data), gv);
    GammaDrawsPositive(alpha, beta, data, gv);
    NormalizedRows(G);
    NormalizeRows(G)
  }
}
