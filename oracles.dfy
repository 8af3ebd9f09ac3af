/**
 * The random variates the sampler asks numpy and scipy for, passed in as
 * functions, each with the only fact about it that the bookkeeping relies on.
 */
module Oracles {
  import opened Matrices

  /** Trial `k` of the table-count experiment of cell `(i, j)`: whether `rand() < p_k`. */
  type Coins = (nat, nat, nat) -> bool
  /** Draw `k` of the geometric variates requested for state `i`. */
  type Geometric = (nat, nat) -> nat
  /** The multinomial split of a total `t` requested for row `i` (over its first `i` columns). */
  type Multinomial = (nat, nat) -> seq<nat>
  /** The binomial variate out of `n` trials requested for state `i`. */
  type Binomial = (nat, nat) -> nat
  /** A Dirichlet draw for a parameter vector. */
  type Dirichlet = seq<real> -> seq<real>
  /** The gamma variate of cell `(i, j)` for a shape parameter. */
  type GammaVariates = (nat, nat, real) -> real

  datatype Draws = Draws(
    coins: Coins,
    geometric: Geometric,
    multinomial: Multinomial,
    binomial: Binomial,
    dirichlet: Dirichlet,
    gammaVariate: GammaVariates)

  /** numpy's geometric variates count trials up to the first success: they are at least 1. */
  ghost predicate IsGeometric(geo: Geometric) {
    forall i, k :: geo(i, k) >= 1
  }

  /**
   * A multinomial split has one entry per probability; for row `i > 0` there are `i`
   * of them and the entries add up to the total. For row 0 the probability vector is
   * empty and so is the split.
   */
  ghost predicate IsMultinomial(mu: Multinomial) {
    forall i, t :: |mu(i, t)| == i && (i > 0 ==> Sum(mu(i, t)) == t)
  }

  /** A binomial variate out of `n` trials is at most `n`. */
  ghost predicate IsBinomial(bin: Binomial) {
    forall i, n :: bin(i, n) <= n
  }

  /** A Dirichlet draw has the dimension of its parameter vector and nonnegative entries. */
  ghost predicate IsDirichlet(dir: Dirichlet) {
    (forall p :: |dir(p)| == |p|) &&
    (forall p, j :: 0 <= j < |p| ==> dir(p)[j] >= 0.0)
  }

  /** A gamma variate with a positive shape is positive. */
  ghost predicate IsGammaVariates(gv: GammaVariates) {
    forall i, j, shape :: shape > 0.0 ==> gv(i, j, shape) > 0.0
  }

  /**
   * Trial `k` of cell `(i, j)` succeeds with probability `w / (k + w)`, `w` the weight of
   * column `j`; for `k = 0` and `w > 0` that is 1, and `rand()` is below 1.
   */
  ghost predicate FirstTrialSucceeds(coins: Coins, weight: seq<real>) {
    forall i, j :: 0 <= j < |weight| && weight[j] > 0.0 ==> coins(i, j, 0)
  }

  ghost predicate ValidDraws(d: Draws) {
    IsGeometric(d.geometric) && IsMultinomial(d.multinomial) && IsBinomial(d.binomial) &&
    IsDirichlet(d.dirichlet) && IsGammaVariates(d.gammaVariate)
  }

  /** The sum of the `n` geometric variates drawn for state `i` (`geometric(p, size=n).sum()`). */
  function DrawTotal(geo: Geometric, i: nat, n: nat): nat {
    if n == 0 then 0 else DrawTotal(geo, i, n - 1) + geo(i, n - 1)
  }

  /** Each geometric variate is at least 1, so `n` of them add up to at least `n`, and to 0 only when `n` is 0. */
  lemma {:induction false} DrawTotalAtLeastCount(geo: Geometric, i: nat, n: nat)
    requires IsGeometric(geo)
    ensures DrawTotal(geo, i, n) >= n
    ensures DrawTotal(geo, i, n) == 0 <==> n == 0
  {
    if n > 0 {
      DrawTotalAtLeastCount(geo, i, n - 1);
    }
  }
}
