/**
 * The transition objects themselves: one class holding `trans_counts`, `m`, `newm`,
 * `beta`, `A` and `fullA`, whose methods are the steps of `resample` for the base,
 * left-to-right, semi-Markov, sticky and sticky left-to-right variants, and which
 * update those fields as the steps do.
 */
module Transitions {
  import opened Matrices
  import opened Oracles
  import opened Outcomes
  import opened HdpHmm
  import opened LeftToRight
  import opened SemiMarkov
  import opened Sticky

  /**
   * `HDPHMMTransitions`, `LTRHDPHMMTransitions`, `HDPHSMMTransitions`,
   * `StickyHDPHMMTransitions` and `StickyLTRHDPHMMTransitions`.
   */
  datatype Variant = Hmm | Ltr | Hsmm | StickyHmm | StickyLtr
  {
    predicate IsLeftToRight() { this == Ltr || this == StickyLtr }
    predicate IsSticky() { this == StickyHmm || this == StickyLtr }
  }

  /** The counts `_count_transitions` of the variant leaves, or the assertion it fails. */
  ghost function CountsFor(variant: Variant, seqs: seq<seq<int>>, L: nat, d: Draws): (r: Result<seq<seq<nat>>>)
    requires IsMultinomial(d.multinomial)
    ensures r.Ok? ==> IsSquare(r.value, L)
    ensures r.Raised? ==> variant.IsLeftToRight() && r.fault == AssertionFailed
  {
    if variant.IsLeftToRight() then CountOutcome(CountMatrix(seqs, L), d.geometric, d.multinomial)
    else Ok(CountMatrix(seqs, L))
  }

  /**
   * What the variant's `_resample_A` hands to the gamma draws: the counts, with `kappa`
   * added to each diagonal entry exactly once in the sticky variants (the left-to-right
   * one included) and nowhere else. It is nonnegative whenever `kappa` is.
   */
  function ShapeData(variant: Variant, counts: seq<seq<nat>>, kappa: real): (data: seq<seq<real>>)
    requires IsSquare(counts, |counts|)
    ensures IsSquare(data, |counts|)
    ensures forall i, j :: 0 <= i < |counts| && 0 <= j < |counts| ==>
      data[i][j] == counts[i][j] as real + if variant.IsSticky() && i == j then kappa else 0.0
    ensures kappa >= 0.0 ==> NonNegativeR(data)
  {
    var R := ToReal(counts);
    if variant.IsSticky() then AddDiagonal(R, kappa) else R
  }

  // ------------------------------------------------------ array helpers

  /** `X.copy()`. */
  method Copy<T>(a: array2<T>) returns (c: array2<T>)
    requires a.Length0 == a.Length1
    ensures fresh(c) && c.Length0 == a.Length0 && c.Length1 == a.Length1
    ensures Cells(c) == Cells(a)
  {
    c := new T[a.Length0, a.Length1]((i, j) reads a requires 0 <= i < a.Length0 && 0 <= j < a.Length1 => a[i, j]);
    Extensional(Cells(c), Cells(a), a.Length0);
  }

  /** A fresh `L x L` array holding `M`. */
  method FromCells(M: seq<seq<real>>, L: nat) returns (a: array2<real>)
    requires IsSquare(M, L)
    ensures fresh(a) && a.Length0 == L && a.Length1 == L
    ensures Cells(a) == M
  {
    a := new real[L, L]((i, j) requires 0 <= i < L && 0 <= j < L => M[i][j]);
    Extensional(Cells(a), M, L);
  }

  /** `X /= X.sum(1)[:, na]`, in place. */
  method DivideRows(a: array2<real>)
    requires a.Length0 == a.Length1 && PositiveRowSums(Cells(a))
    modifies a
    ensures Cells(a) == NormalizeRows(old(Cells(a)))
  {
    ghost var X := Cells(a);
    var n := a.Length0;
    var sums := RowSums(Cells(a));
    for i := 0 to n
      invariant forall r, c :: 0 <= r < n && 0 <= c < n ==>
        a[r, c] == if r < i then X[r][c] / SumR(X[r]) else X[r][c]
    {
      for j := 0 to n
        invariant forall r, c :: 0 <= r < n && 0 <= c < n ==>
          a[r, c] == if r < i || (r == i && c < j) then X[r][c] / SumR(X[r]) else X[r][c]
      {
        a[i, j] := a[i, j] / sums[i];
      }
    }
    Extensional(Cells(a), NormalizeRows(X), n);
  }

  /** `X.flat[::L + 1] = 0`: the diagonal set to zero, in place. */
  method ZeroDiagonalInPlace(a: array2<real>)
    requires a.Length0 == a.Length1
    modifies a
    ensures Cells(a) == ZeroDiagonal(old(Cells(a)))
  {
    ghost var X := Cells(a);
    var n := a.Length0;
    for i := 0 to n
      invariant forall r, c :: 0 <= r < n && 0 <= c < n ==>
        a[r, c] == if r == c && r < i then 0.0 else X[r][c]
    {
      a[i, i] := 0.0;
    }
    Extensional(Cells(a), ZeroDiagonal(X), n);
  }

  /** `X += np.diag(extra)`, in place. */
  method AddToDiagonal(a: array2<nat>, extra: seq<nat>)
    requires a.Length0 == a.Length1 == |extra|
    modifies a
    ensures forall i :: 0 <= i < a.Length0 ==> a[i, i] == old(a[i, i]) + extra[i]
    ensures forall i, j :: 0 <= i < a.Length0 && 0 <= j < a.Length0 && i != j ==> a[i, j] == old(a[i, j])
    ensures Cells(a) == DiagonalAdded(old(Cells(a)), extra)
  {
    ghost var C := Cells(a);
    for i := 0 to a.Length0
      invariant forall k :: 0 <= k < i ==> a[k, k] == old(a[k, k]) + extra[k]
      invariant forall k, j :: 0 <= k < a.Length0 && 0 <= j < a.Length0 && (k != j || k >= i) ==> a[k, j] == old(a[k, j])
    {
      a[i, i] := a[i, i] + extra[i];
    }
    Extensional(Cells(a), DiagonalAdded(C, extra), a.Length0);
  }

  /** The copy `_augment_data` makes and adds the self-transitions to. */
  method AugmentedCopy(counts: array2<nat>, geo: Geometric) returns (aug: array2<nat>)
    requires counts.Length0 == counts.Length1
    ensures fresh(aug) && aug.Length0 == aug.Length1 == counts.Length0
    ensures Cells(aug) == Augmented(Cells(counts), geo)
  {
    aug := Copy(counts);
    if Total(Cells(counts)) > 0 {
      AddToDiagonal(aug, SelfTransitions(Cells(counts), geo));
    }
  }

  /**
   * Row `i` of the loop of `_get_m`: each cell gets the successes among its trials, unless
   * a positive count in a column of weight 0 raises first.
   */
  method CountRowTables(counts: array2<nat>, weight: seq<real>, coins: Coins, tables: array2<nat>, i: nat)
    returns (raised: bool)
    requires counts.Length0 == counts.Length1 == tables.Length0 == tables.Length1 == |weight|
    requires i < |weight| && tables != counts
    modifies tables
    ensures raised <==> exists b :: 0 <= b < |weight| && counts[i, b] > 0 && weight[b] == 0.0
    ensures !raised ==> forall a, b :: 0 <= a < |weight| && 0 <= b < |weight| ==>
      tables[a, b] == if a == i then Successes(coins, a, b, counts[a, b]) else old(tables[a, b])
  {
    var L := |weight|;
    for j := 0 to L
      invariant forall a, b :: 0 <= a < L && 0 <= b < L ==>
        tables[a, b] == if a == i && b < j then Successes(coins, a, b, counts[a, b]) else old(tables[a, b])
      invariant forall b :: 0 <= b < j ==> !(counts[i, b] > 0 && weight[b] == 0.0)
    {
      if counts[i, j] > 0 && weight[j] == 0.0 {
        return true;
      }
      tables[i, j] := Successes(coins, i, j, counts[i, j]);
    }
    return false;
  }

  /**
   * The loop of `_get_m` on a fresh zero matrix: each cell gets the successes among its
   * trials; a positive count in a column of weight 0 raises.
   */
  method CountTables(counts: array2<nat>, weight: seq<real>, coins: Coins) returns (r: Result<array2<nat>>)
    requires counts.Length0 == counts.Length1 == |weight|
    ensures r.Raised? <==> TableCounts(Cells(counts), weight, coins).Raised?
    ensures r.Raised? ==> r.fault == InvalidOperation
    ensures r.Ok? ==> fresh(r.value) && r.value.Length0 == r.value.Length1 == |weight|
    ensures r.Ok? ==> Cells(r.value) == TableCounts(Cells(counts), weight, coins).value
  {
    var L := |weight|;
    var tables := new nat[L, L]((_, _) => 0);
    if !AllZero(Cells(counts)) {
      for i := 0 to L
        invariant forall a, b :: 0 <= a < L && 0 <= b < L ==>
          tables[a, b] == if a < i then Successes(coins, a, b, counts[a, b]) else 0
        invariant forall a, b :: 0 <= a < i && 0 <= b < L ==> !(counts[a, b] > 0 && weight[b] == 0.0)
      {
        var raised := CountRowTables(counts, weight, coins, tables, i);
        if raised {
          var b :| 0 <= b < L && counts[i, b] > 0 && weight[b] == 0.0;
          assert Cells(counts)[i][b] > 0;
          return Raised(InvalidOperation);
        }
      }
      assert !ZeroWeightFault(Cells(counts), weight);
    }
    Extensional(Cells(tables), TableCounts(Cells(counts), weight, coins).value, L);
    return Ok(tables);
  }

  /** The binomial draws written over the nonzero diagonal entries, in place. */
  method DrawDiagonal(a: array2<nat>, bin: Binomial)
    requires a.Length0 == a.Length1
    modifies a
    ensures forall i, j :: 0 <= i < a.Length0 && 0 <= j < a.Length0 ==>
      a[i, j] == if i == j && old(a[i, i]) > 0 then bin(i, old(a[i, i])) else old(a[i, j])
    ensures Cells(a) == DiagonalReplaced(old(Cells(a)), DiagonalDraws(old(Cells(a)), bin))
  {
    ghost var C := Cells(a);
    for k := 0 to a.Length0
      invariant forall i, j :: 0 <= i < a.Length0 && 0 <= j < a.Length0 ==>
        a[i, j] == if i == j && i < k && old(a[i, i]) > 0 then bin(i, old(a[i, i])) else old(a[i, j])
    {
      var count := a[k, k];
      if count > 0 {
        a[k, k] := bin(k, count);
      }
    }
    Extensional(Cells(a), DiagonalReplaced(C, DiagonalDraws(C, bin)), a.Length0);
  }

  /** `newm`: a copy of the table counts with the nonzero diagonal entries replaced by binomial draws. */
  method SplitCopy(tables: array2<nat>, bin: Binomial) returns (split: array2<nat>)
    requires tables.Length0 == tables.Length1
    ensures fresh(split) && split.Length0 == split.Length1 == tables.Length0
    ensures Cells(split) == StickySplit(Cells(tables), bin)
  {
    split := Copy(tables);
    if Total(Cells(tables)) > 0 {
      DrawDiagonal(split, bin);
    }
  }

  /**
   * The split as written: the binomial draws are stored into `newm.flat[::L + 1]`, which
   * numpy materialises as a separate copy of the diagonal, so the copy keeps the values
   * of the table counts.
   */
  method SplitCopyAsWritten(tables: array2<nat>, bin: Binomial) returns (split: array2<nat>)
    requires tables.Length0 == tables.Length1
    ensures fresh(split) && split.Length0 == split.Length1 == tables.Length0
    ensures Cells(split) == Cells(tables)
  {
    split := Copy(tables);
    var n := tables.Length0;
    if Total(Cells(tables)) > 0 {
      var diagonal := new nat[n](k requires 0 <= k < n reads split => split[k, k]);
      for i := 0 to n
        invariant Cells(split) == Cells(tables)
      {
        if diagonal[i] > 0 {
          diagonal[i] := bin(i, tables[i, i]);
        }
      }
    }
  }

  // ------------------------------------------------------- the objects

  class HdpTransitions {
    const variant: Variant
    /** `state_dim`, the number of states of the weak limit. */
    const L: nat
    const alpha: real
    const gamma: real
    /** The self-transition bias of the sticky variants. */
    const kappa: real
    var beta: seq<real>
    var A: array2<real>
    /** The unmasked matrix kept by the left-to-right and semi-Markov variants; null until set. */
    var fullA: array2?<real>
    /** `trans_counts`, `m` and `newm`; null until a resample sets them. */
    var transCounts: array2?<nat>
    var m: array2?<nat>
    var newm: array2?<nat>

    ghost predicate Valid()
      reads this
    {
      L > 0 && alpha >= 0.0 && gamma >= 0.0 && kappa >= 0.0 &&
      (variant == Hsmm ==> L >= 2) &&
      |beta| == L && (forall j :: 0 <= j < L ==> beta[j] >= 0.0) &&
      A.Length0 == L && A.Length1 == L &&
      (fullA != null ==> fullA.Length0 == L && fullA.Length1 == L) &&
      (transCounts != null ==> transCounts.Length0 == L && transCounts.Length1 == L) &&
      (m != null ==> m.Length0 == L && m.Length1 == L) &&
      (newm != null ==> newm.Length0 == L && newm.Length1 == L)
    }

    /**
     * `A` (and `fullA`) as the variant's `_resample_A` leaves them when it is handed
     * `counts` under the current `beta`: the normalised gamma draw for the counts (plus
     * `kappa` once on the diagonal in the sticky variants), masked to its upper triangle
     * and kept as `fullA` in the left-to-right variants, with a zero diagonal and kept as
     * `fullA` in the semi-Markov variant; the other variants leave `fullA` at `priorFullA`.
     */
    ghost predicate DrawnFrom(counts: seq<seq<nat>>, gv: GammaVariates, priorFullA: array2?<real>)
      requires Valid() && IsSquare(counts, L) && IsGammaVariates(gv)
      reads this, A, fullA
    {
      var draw := ResampledA(alpha, beta, ShapeData(variant, counts, kappa), gv);
      match variant
      case Ltr | StickyLtr => fullA != null && Cells(fullA) == draw && Cells(A) == MaskedA(Cells(fullA))
      case Hsmm => fullA != null && Cells(fullA) == draw && Cells(A) == SemiMarkovA(Cells(fullA))
      case Hmm | StickyHmm => fullA == priorFullA && Cells(A) == draw
    }

    /**
     * Construction from given parameters. `fullA` is a parameter of the semi-Markov
     * constructor only, which resamples instead (`Default`) when it is missing; the base
     * and sticky variants have no `fullA`, and the left-to-right ones need it set before
     * they can resample.
     */
    constructor (variant: Variant, L: nat, alpha: real, gamma: real, kappa: real,
                 beta: seq<real>, A: array2<real>, fullA: array2?<real>)
      requires L > 0 && alpha >= 0.0 && gamma >= 0.0 && kappa >= 0.0 && (variant == Hsmm ==> L >= 2)
      requires |beta| == L && forall j :: 0 <= j < L ==> beta[j] >= 0.0
      requires A.Length0 == L && A.Length1 == L
      requires fullA != null ==> fullA.Length0 == L && fullA.Length1 == L
      requires variant == Hsmm ==> fullA != null
      requires variant == Hmm || variant == StickyHmm ==> fullA == null
      ensures Valid()
      ensures this.variant == variant && this.L == L && this.alpha == alpha && this.gamma == gamma && this.kappa == kappa
      ensures this.beta == beta && this.A == A && this.fullA == fullA
      ensures transCounts == null && m == null && newm == null
    {
      this.variant, this.L, this.alpha, this.gamma, this.kappa := variant, L, alpha, gamma, kappa;
      this.beta, this.A, this.fullA := beta, A, fullA;
      transCounts, m, newm := null, null, null;
    }

    /**
     * Construction without `beta` and `A`: a resample on no sequences. Its counts are all
     * zero, so `_get_m`, the sticky split and the augmentation draw nothing and read
     * neither `beta` nor `fullA`; the placeholders set here stand for attributes that do
     * not exist yet and are never read. The left-to-right variants are excluded: their
     * counting reads `fullA` unconditionally.
     */
    constructor Default(variant: Variant, L: nat, alpha: real, gamma: real, kappa: real, d: Draws)
      requires L > 0 && alpha >= 0.0 && gamma >= 0.0 && kappa >= 0.0 && (variant == Hsmm ==> L >= 2)
      requires !variant.IsLeftToRight() && ValidDraws(d)
      ensures Valid()
      ensures this.variant == variant && this.L == L && this.alpha == alpha && this.gamma == gamma && this.kappa == kappa
      ensures transCounts != null && m != null && Cells(transCounts) == Zero(L) && Cells(m) == Zero(L)
      ensures beta == d.dirichlet(BetaParams(gamma, Zero(L), L))
      ensures DrawnFrom(Zero(L), d.gammaVariate, null)
      ensures variant.IsSticky() ==> newm != null && Cells(newm) == Zero(L)
      ensures !variant.IsSticky() ==> newm == null
      ensures forall i :: 0 <= i < L ==> SumR(Cells(A)[i]) == 1.0
      ensures variant == Hsmm ==> fullA != null && forall i :: 0 <= i < L ==> A[i, i] == 0.0
    {
      this.variant, this.L, this.alpha, this.gamma, this.kappa := variant, L, alpha, gamma, kappa;
      beta := seq(L, _ => 0.0);
      A := new real[L, L]((_, _) => 0.0);
      fullA, transCounts, m, newm := null, null, null, null;
      new;
      if variant == Hsmm {
        ResampleSemiMarkovOnNothing(d);
      } else {
        ResampleOnNothing(d);
      }
    }

    /** A resample of a Markov variant on no sequences: zero counts, which cannot raise. */
    method ResampleOnNothing(d: Draws)
      requires Valid() && ValidDraws(d) && variant != Hsmm && !variant.IsLeftToRight()
      modifies this`transCounts, this`m, this`newm, this`beta, this`A, this`fullA
      ensures Valid()
      ensures transCounts != null && m != null && Cells(transCounts) == Zero(L) && Cells(m) == Zero(L)
      ensures beta == d.dirichlet(BetaParams(gamma, Zero(L), L))
      ensures DrawnFrom(Zero(L), d.gammaVariate, old(fullA))
      ensures variant.IsSticky() ==> newm != null && Cells(newm) == Zero(L)
      ensures !variant.IsSticky() ==> newm == old(newm)
      ensures forall i :: 0 <= i < L ==> SumR(Cells(A)[i]) == 1.0
    {
      CountMatrixAdditive([], [], L);
      TotalNonNegative(Zero(L));
      assert AllZero(Zero(L));
      assert StickySplit(Zero(L), d.binomial) == Zero(L);
      var r := Resample([], d);
    }

    /** A resample of the semi-Markov variant on no sequences: zero counts, nothing drawn, no raise. */
    method ResampleSemiMarkovOnNothing(d: Draws)
      requires Valid() && ValidDraws(d) && variant == Hsmm
      modifies this`transCounts, this`m, this`newm, this`beta, this`A, this`fullA
      ensures Valid()
      ensures transCounts != null && m != null && Cells(transCounts) == Zero(L) && Cells(m) == Zero(L)
      ensures beta == d.dirichlet(BetaParams(gamma, Zero(L), L))
      ensures DrawnFrom(Zero(L), d.gammaVariate, old(fullA))
      ensures newm == old(newm)
      ensures fullA != null && forall i :: 0 <= i < L ==> A[i, i] == 0.0 && SumR(Cells(A)[i]) == 1.0
    {
      CountMatrixAdditive([], [], L);
      TotalNonNegative(Zero(L));
      assert AllZero(Zero(L));
      assert Augmented(Zero(L), d.geometric) == Zero(L);
      var r := ResampleSemiMarkov([], d);
    }

    // ------------------------------------------------------- counting

    /** `_count_transitions`: tallies every adjacent pair of every sequence into fresh counts. */
    method CountTransitions(seqs: seq<seq<int>>) returns (counts: array2<nat>)
      requires Valid() && LabelsInRange(seqs, L)
      modifies this`transCounts
      ensures Valid() && fresh(counts) && transCounts == counts
      ensures Cells(counts) == CountMatrix(seqs, L)
    {
      counts := new nat[L, L]((_, _) => 0);
      for n := 0 to |seqs|
        invariant forall i, j :: 0 <= i < L && 0 <= j < L ==> counts[i, j] == CountIn(seqs[..n], i, j)
      {
        var s := seqs[n];
        if |s| >= 2 {
          for k := 0 to |s| - 1
            invariant forall i, j :: 0 <= i < L && 0 <= j < L ==>
              counts[i, j] == CountIn(seqs[..n], i, j) + PairCount(s[..k + 1], i, j)
          {
            PairCountExtend(s, k);
            counts[s[k], s[k + 1]] := counts[s[k], s[k + 1]] + 1;
          }
          assert s[..|s|] == s;
        }
        assert seqs[..n + 1][..n] == seqs[..n];
      }
      assert seqs[..|seqs|] == seqs;
      transCounts := counts;
      Extensional(Cells(counts), CountMatrix(seqs, L), L);
    }

    /**
     * The left-to-right `_count_transitions`: the base counts, the assertion that none of
     * them goes backward, then each row's strictly-lower slice overwritten, in place, with
     * the multinomial split of the row's drawn total.
     */
    method CountTransitionsLeftToRight(seqs: seq<seq<int>>, d: Draws) returns (r: Result<array2<nat>>)
      requires Valid() && LabelsInRange(seqs, L) && fullA != null && IsMultinomial(d.multinomial)
      modifies this`transCounts
      ensures Valid() && transCounts != null && fresh(transCounts)
      ensures r.Raised? <==> CountOutcome(CountMatrix(seqs, L), d.geometric, d.multinomial).Raised?
      ensures r.Raised? ==> r.fault == AssertionFailed && Cells(transCounts) == CountMatrix(seqs, L)
      ensures r.Ok? ==>
        (r.value == transCounts &&
         Cells(transCounts) == CountOutcome(CountMatrix(seqs, L), d.geometric, d.multinomial).value)
    {
      var counts := CountTransitions(seqs);
      var base := Cells(counts);
      if !StrictlyLowerZero(base) {
        return Raised(AssertionFailed);
      }
      ghost var C := Reconstructed(base, d.geometric, d.multinomial);
      for i := 0 to L
        invariant transCounts == counts
        invariant forall a, b :: 0 <= a < L && 0 <= b < L ==> counts[a, b] == if a < i then C[a][b] else base[a][b]
      {
        var tot := RowDrawTotal(base, d.geometric, i);
        var split := d.multinomial(i, tot);
        assert |split| == i;
        assert C[i] == split + base[i][i..];
        for j := 0 to i
          invariant transCounts == counts
          invariant forall a, b :: 0 <= a < L && 0 <= b < L ==>
            counts[a, b] == if a < i || (a == i && b < j) then C[a][b] else base[a][b]
        {
          counts[i, j] := split[j];
        }
      }
      Extensional(Cells(counts), C, L);
      return Ok(counts);
    }

    // --------------------------------------------------- table counts

    /**
     * `_get_m` with column weights `alpha * beta[j]`: the table counts become `m`, unless
     * numpy raises, and then `m` is not assigned.
     */
    method GetM(counts: array2<nat>, coins: Coins) returns (r: Result<array2<nat>>)
      requires Valid() && counts.Length0 == L && counts.Length1 == L
      modifies this`m
      ensures Valid()
      ensures r.Raised? <==> TableCounts(Cells(counts), Weights(alpha, beta), coins).Raised?
      ensures r.Raised? ==> r.fault == InvalidOperation && m == old(m)
      ensures r.Ok? ==> fresh(m) && r.value == m && Cells(m) == TableCounts(Cells(counts), Weights(alpha, beta), coins).value
    {
      r := CountTables(counts, Weights(alpha, beta), coins);
      if r.Ok? {
        m := r.value;
      }
    }

    // ----------------------------------------------------------- beta

    /** `_resample_beta` of the base class: a Dirichlet draw with parameter `gamma / L + m.sum(0) + 1e-2`. */
    method ResampleBeta(tables: array2<nat>, dir: Dirichlet)
      requires Valid() && tables.Length0 == L && tables.Length1 == L && IsDirichlet(dir)
      modifies this`beta
      ensures Valid() && beta == dir(BetaParams(gamma, Cells(tables), L))
    {
      beta := dir(BetaParams(gamma, Cells(tables), L));
    }

    /**
     * The first half of the sticky `_resample_beta`: `newm`, a copy of `m` whose nonzero
     * diagonal entries are replaced by binomial draws when `m` has a positive sum.
     */
    method SplitTableCounts(tables: array2<nat>, bin: Binomial)
      requires Valid() && tables.Length0 == L && tables.Length1 == L
      modifies this`newm
      ensures Valid() && fresh(newm) && Cells(newm) == StickySplit(Cells(tables), bin)
    {
      newm := SplitCopy(tables, bin);
    }

    /** The first half of the sticky `_resample_beta` as written: `newm` keeps the values of `m`. */
    method SplitTableCountsAsWritten(tables: array2<nat>, bin: Binomial)
      requires Valid() && tables.Length0 == L && tables.Length1 == L
      modifies this`newm
      ensures Valid() && fresh(newm) && Cells(newm) == Cells(tables)
    {
      newm := SplitCopyAsWritten(tables, bin);
    }

    /** The sticky `_resample_beta`: the split of `m`, then the base draw of `beta` from `newm`. */
    method ResampleBetaSticky(tables: array2<nat>, bin: Binomial, dir: Dirichlet)
      requires Valid() && tables.Length0 == L && tables.Length1 == L && IsDirichlet(dir)
      modifies this`newm, this`beta
      ensures Valid() && fresh(newm) && Cells(newm) == StickySplit(Cells(tables), bin)
      ensures beta == dir(BetaParams(gamma, Cells(newm), L))
    {
      SplitTableCounts(tables, bin);
      ResampleBeta(newm, dir);
    }

    // -------------------------------------------------------------- A

    /** `_resample_A` of the base class: fresh gamma draws, then each row divided by its sum in place. */
    method ResampleA(data: seq<seq<real>>, gv: GammaVariates)
      requires Valid() && IsSquare(data, L) && NonNegativeR(data) && IsGammaVariates(gv)
      modifies this`A
      ensures Valid() && fresh(A) && Cells(A) == ResampledA(alpha, beta, data, gv)
    {
      GammaDrawsPositive(alpha, beta, data, gv);
      var draws := FromCells(GammaDraws(Shape(alpha, beta, data), gv), L);
      DivideRows(draws);
      A := draws;
    }

    /**
     * The left-to-right `_resample_A`: the base draw becomes `fullA`, and `A` is a new
     * matrix, the upper triangle of `fullA` with its rows normalised.
     */
    method ResampleALeftToRight(data: seq<seq<real>>, gv: GammaVariates)
      requires Valid() && IsSquare(data, L) && NonNegativeR(data) && IsGammaVariates(gv)
      modifies this`A, this`fullA
      ensures Valid() && fresh(A) && fresh(fullA) && fullA != null && A != fullA
      ensures Cells(fullA) == ResampledA(alpha, beta, data, gv)
      ensures Cells(A) == MaskedA(Cells(fullA))
    {
      ResampleA(data, gv);
      fullA := A;
      UpperPartRowSums(Cells(fullA));
      A := FromCells(NormalizeRows(UpperPart(Cells(fullA))), L);
    }

    /**
     * The semi-Markov `_resample_A`: the base draw, a copy of it kept as `fullA`, then the
     * diagonal of `A` zeroed and its rows normalised in place.
     */
    method ResampleASemiMarkov(data: seq<seq<real>>, gv: GammaVariates)
      requires Valid() && variant == Hsmm && IsSquare(data, L) && NonNegativeR(data) && IsGammaVariates(gv)
      modifies this`A, this`fullA
      ensures Valid() && fresh(A) && fresh(fullA) && fullA != null && A != fullA
      ensures Cells(fullA) == ResampledA(alpha, beta, data, gv)
      ensures Cells(A) == SemiMarkovA(Cells(fullA))
      ensures forall i :: 0 <= i < L ==> A[i, i] == 0.0 && SumR(Cells(A)[i]) == 1.0
    {
      ResampleA(data, gv);
      fullA := Copy(A);
      ZeroDiagonalInPlace(A);
      ZeroDiagonalRowSums(Cells(fullA));
      DivideRows(A);
      SemiMarkovAPattern(Cells(fullA));
    }

    // ----------------------------------------------------- semi-Markov

    /**
     * `_augment_data`: a fresh copy of the counts with the drawn self-transitions added on
     * the diagonal when the counts have a positive sum; it becomes `trans_counts`.
     */
    method AugmentData(counts: array2<nat>, geo: Geometric) returns (aug: array2<nat>)
      requires Valid() && counts.Length0 == L && counts.Length1 == L
      requires fullA != null || Total(Cells(counts)) == 0
      modifies this`transCounts
      ensures Valid() && fresh(aug) && transCounts == aug
      ensures Cells(aug) == Augmented(Cells(counts), geo)
    {
      aug := AugmentedCopy(counts, geo);
      transCounts := aug;
    }

    // -------------------------------------------------------- resample

    /** `_count_transitions` as the variant defines it. */
    method CountStep(seqs: seq<seq<int>>, d: Draws) returns (r: Result<array2<nat>>)
      requires Valid() && ValidDraws(d) && LabelsInRange(seqs, L)
      requires variant.IsLeftToRight() ==> fullA != null
      modifies this`transCounts
      ensures Valid() && transCounts != null && fresh(transCounts)
      ensures r.Raised? <==> CountsFor(variant, seqs, L, d).Raised?
      ensures r.Raised? ==> r.fault == AssertionFailed && Cells(transCounts) == CountMatrix(seqs, L)
      ensures r.Ok? ==> r.value == transCounts && Cells(transCounts) == CountsFor(variant, seqs, L, d).value
    {
      if variant.IsLeftToRight() {
        r := CountTransitionsLeftToRight(seqs, d);
      } else {
        var counts := CountTransitions(seqs);
        r := Ok(counts);
      }
    }

    /** `_resample_beta` as the variant defines it. */
    method BetaStep(tables: array2<nat>, d: Draws)
      requires Valid() && ValidDraws(d) && tables.Length0 == L && tables.Length1 == L
      modifies this`newm, this`beta
      ensures Valid()
      ensures variant.IsSticky() ==>
        newm != null && fresh(newm) && Cells(newm) == StickySplit(Cells(tables), d.binomial) &&
        beta == d.dirichlet(BetaParams(gamma, Cells(newm), L))
      ensures !variant.IsSticky() ==>
        newm == old(newm) && beta == d.dirichlet(BetaParams(gamma, Cells(tables), L))
    {
      if variant.IsSticky() {
        ResampleBetaSticky(tables, d.binomial, d.dirichlet);
      } else {
        ResampleBeta(tables, d.dirichlet);
      }
    }

    /**
     * `_resample_A` of the Markov variants, on the counts: `kappa` goes on the diagonal in
     * the sticky variants, once and before the left-to-right mask.
     */
    method AStep(counts: array2<nat>, gv: GammaVariates)
      requires Valid() && IsGammaVariates(gv) && variant != Hsmm && counts.Length0 == L && counts.Length1 == L
      modifies this`A, this`fullA
      ensures Valid() && fresh(A) && (variant.IsLeftToRight() ==> fresh(fullA))
      ensures DrawnFrom(Cells(counts), gv, old(fullA))
      ensures forall i :: 0 <= i < L ==> SumR(Cells(A)[i]) == 1.0
      ensures variant.IsLeftToRight() ==> forall i, j :: 0 <= j < i < L ==> A[i, j] == 0.0
    {
      var data := ShapeData(variant, Cells(counts), kappa);
      if variant.IsLeftToRight() {
        ResampleALeftToRight(data, gv);
        MaskedAPattern(Cells(fullA));
      } else {
        ResampleA(data, gv);
      }
    }

    /** The steps between counting and `A`: `m` from the counts, then `beta`. */
    method TablesAndBeta(counts: array2<nat>, d: Draws) returns (r: Result<()>)
      requires Valid() && ValidDraws(d) && counts.Length0 == L && counts.Length1 == L
      modifies this`m, this`newm, this`beta
      ensures Valid()
      ensures TableCounts(Cells(counts), Weights(alpha, old(beta)), d.coins).Raised? <==> r.Raised?
      ensures r.Raised? ==> r.fault == InvalidOperation && m == old(m) && newm == old(newm) && beta == old(beta)
      ensures r.Ok? ==>
        m != null && fresh(m) && Cells(m) == TableCounts(Cells(counts), Weights(alpha, old(beta)), d.coins).value
      ensures r.Ok? && variant.IsSticky() ==>
        m != null && newm != null && fresh(newm) && Cells(newm) == StickySplit(Cells(m), d.binomial) &&
        beta == d.dirichlet(BetaParams(gamma, Cells(newm), L))
      ensures r.Ok? && !variant.IsSticky() ==>
        m != null && newm == old(newm) && beta == d.dirichlet(BetaParams(gamma, Cells(m), L))
    {
      var tables := GetM(counts, d.coins);
      if tables.Raised? {
        return Raised(tables.fault);
      }
      BetaStep(tables.value, d);
      return Ok(());
    }

    /** The Markov steps after counting: table counts, `beta`, then `A`, all on the counts. */
    method Update(counts: array2<nat>, d: Draws) returns (r: Result<()>)
      requires Valid() && ValidDraws(d) && variant != Hsmm && counts.Length0 == L && counts.Length1 == L
      modifies this`m, this`newm, this`beta, this`A, this`fullA
      ensures Valid()
      ensures TableCounts(Cells(counts), Weights(alpha, old(beta)), d.coins).Raised? <==> r.Raised?
      ensures r.Raised? ==>
        r.fault == InvalidOperation && m == old(m) && newm == old(newm) && beta == old(beta) &&
        A == old(A) && fullA == old(fullA)
      ensures r.Ok? ==>
        m != null && fresh(m) && fresh(A) &&
        Cells(m) == TableCounts(Cells(counts), Weights(alpha, old(beta)), d.coins).value
      ensures r.Ok? ==> (variant.IsLeftToRight() ==> fresh(fullA)) && DrawnFrom(Cells(counts), d.gammaVariate, old(fullA))
      ensures r.Ok? && variant.IsSticky() ==>
        m != null && newm != null && fresh(newm) && Cells(newm) == StickySplit(Cells(m), d.binomial) &&
        beta == d.dirichlet(BetaParams(gamma, Cells(newm), L))
      ensures r.Ok? && !variant.IsSticky() ==>
        m != null && newm == old(newm) && beta == d.dirichlet(BetaParams(gamma, Cells(m), L))
      ensures r.Ok? ==> forall i :: 0 <= i < L ==> SumR(Cells(A)[i]) == 1.0
      ensures r.Ok? && variant.IsLeftToRight() ==> forall i, j :: 0 <= j < i < L ==> A[i, j] == 0.0
    {
      r := TablesAndBeta(counts, d);
      if r.Ok? {
        AStep(counts, d.gammaVariate);
      }
    }

    /**
     * `resample` of the Markov variants: count, table counts, `beta` (after the split in
     * the sticky variants), then `A` (masked in the left-to-right variants). A step that
     * raises leaves the fields the earlier steps assigned.
     */
    method Resample(seqs: seq<seq<int>>, d: Draws) returns (r: Result<()>)
      requires Valid() && ValidDraws(d) && variant != Hsmm && LabelsInRange(seqs, L)
      requires variant.IsLeftToRight() ==> fullA != null
      modifies this`transCounts, this`m, this`newm, this`beta, this`A, this`fullA
      ensures Valid() && transCounts != null && fresh(transCounts)
      ensures CountsFor(variant, seqs, L, d).Raised? ==>
        r == Raised(AssertionFailed) && Cells(transCounts) == CountMatrix(seqs, L)
      ensures CountsFor(variant, seqs, L, d).Ok? ==>
        Cells(transCounts) == CountsFor(variant, seqs, L, d).value &&
        (TableCounts(Cells(transCounts), Weights(alpha, old(beta)), d.coins).Raised? <==> r.Raised?)
      ensures CountsFor(variant, seqs, L, d).Ok? && r.Raised? ==> r.fault == InvalidOperation
      ensures r.Raised? ==>
        m == old(m) && newm == old(newm) && beta == old(beta) && A == old(A) && fullA == old(fullA)
      ensures r.Ok? ==>
        m != null && fresh(m) && fresh(A) &&
        Cells(m) == TableCounts(Cells(transCounts), Weights(alpha, old(beta)), d.coins).value
      ensures r.Ok? ==> (variant.IsLeftToRight() ==> fresh(fullA)) && DrawnFrom(Cells(transCounts), d.gammaVariate, old(fullA))
      ensures r.Ok? && variant.IsSticky() ==>
        m != null && newm != null && fresh(newm) && Cells(newm) == StickySplit(Cells(m), d.binomial) &&
        beta == d.dirichlet(BetaParams(gamma, Cells(newm), L))
      ensures r.Ok? && !variant.IsSticky() ==>
        m != null && newm == old(newm) && beta == d.dirichlet(BetaParams(gamma, Cells(m), L))
      ensures r.Ok? ==> forall i :: 0 <= i < L ==> SumR(Cells(A)[i]) == 1.0
      ensures r.Ok? && variant.IsLeftToRight() ==> forall i, j :: 0 <= j < i < L ==> A[i, j] == 0.0
    {
      var counted := CountStep(seqs, d);
      if counted.Raised? {
        return Raised(counted.fault);
      }
      r := Update(counted.value, d);
    }

    /** The first two steps of the semi-Markov `resample`: `_count_transitions`, then `_augment_data`. */
    method CountAndAugment(runs: seq<seq<int>>, geo: Geometric) returns (aug: array2<nat>)
      requires Valid() && LabelsInRange(runs, L)
      requires fullA != null || TotalSteps(runs) == 0
      modifies this`transCounts
      ensures Valid() && fresh(aug) && transCounts == aug
      ensures Cells(aug) == Augmented(CountMatrix(runs, L), geo)
    {
      var counts := CountTransitions(runs);
      CountTotal(runs, L);
      aug := AugmentData(counts, geo);
    }

    /**
     * The semi-Markov steps after the augmentation: table counts, `beta`, then `A` with a
     * zero diagonal, all on the augmented counts.
     */
    method UpdateSemiMarkov(aug: array2<nat>, d: Draws) returns (r: Result<()>)
      requires Valid() && ValidDraws(d) && variant == Hsmm && aug.Length0 == L && aug.Length1 == L
      modifies this`m, this`newm, this`beta, this`A, this`fullA
      ensures Valid()
      ensures TableCounts(Cells(aug), Weights(alpha, old(beta)), d.coins).Raised? <==> r.Raised?
      ensures r.Raised? ==>
        r.fault == InvalidOperation && m == old(m) && beta == old(beta) && A == old(A) && fullA == old(fullA)
      ensures r.Ok? ==>
        m != null && fresh(m) && Cells(m) == TableCounts(Cells(aug), Weights(alpha, old(beta)), d.coins).value
      ensures r.Ok? ==> m != null && beta == d.dirichlet(BetaParams(gamma, Cells(m), L))
      ensures newm == old(newm)
      ensures r.Ok? ==>
        fresh(A) && fullA != null && fresh(fullA) &&
        Cells(fullA) == ResampledA(alpha, beta, ShapeData(variant, Cells(aug), kappa), d.gammaVariate) &&
        Cells(A) == SemiMarkovA(Cells(fullA))
      ensures r.Ok? ==> forall i :: 0 <= i < L ==> A[i, i] == 0.0 && SumR(Cells(A)[i]) == 1.0
    {
      r := TablesAndBeta(aug, d);
      if r.Ok? {
        ResampleASemiMarkov(ShapeData(variant, Cells(aug), kappa), d.gammaVariate);
      }
    }

    /**
     * `resample` of the semi-Markov variant, on the run-length-collapsed sequences: count,
     * add the drawn self-transitions, then table counts, `beta`, and `A` with a zero diagonal.
     */
    method ResampleSemiMarkov(runs: seq<seq<int>>, d: Draws) returns (r: Result<()>)
      requires Valid() && ValidDraws(d) && variant == Hsmm && LabelsInRange(runs, L) && NoRepeats(runs)
      requires fullA != null || TotalSteps(runs) == 0
      modifies this`transCounts, this`m, this`newm, this`beta, this`A, this`fullA
      ensures Valid() && transCounts != null && fresh(transCounts)
      ensures Cells(transCounts) == Augmented(CountMatrix(runs, L), d.geometric)
      ensures TableCounts(Cells(transCounts), Weights(alpha, old(beta)), d.coins).Raised? <==> r.Raised?
      ensures r.Raised? ==>
        r.fault == InvalidOperation && m == old(m) && beta == old(beta) && A == old(A) && fullA == old(fullA)
      ensures r.Ok? ==>
        m != null && fresh(m) && Cells(m) == TableCounts(Cells(transCounts), Weights(alpha, old(beta)), d.coins).value
      ensures r.Ok? ==> m != null && beta == d.dirichlet(BetaParams(gamma, Cells(m), L))
      ensures newm == old(newm)
      ensures r.Ok? ==>
        fresh(A) && fullA != null && fresh(fullA) &&
        Cells(fullA) == ResampledA(alpha, beta, ShapeData(variant, Cells(transCounts), kappa), d.gammaVariate) &&
        Cells(A) == SemiMarkovA(Cells(fullA))
      ensures r.Ok? ==> forall i :: 0 <= i < L ==> A[i, i] == 0.0 && SumR(Cells(A)[i]) == 1.0
    {
      var aug := CountAndAugment(runs, d.geometric);
      r := UpdateSemiMarkov(aug, d);
    }
  }
}
