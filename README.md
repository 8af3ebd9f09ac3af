# Weak-limit HDP-HMM transition sampler: the bookkeeping core

This project models the integer and matrix bookkeeping of pyhsmm's transition
objects (`internals/transitions.py`). They are the Gibbs-sampling steps for the
transition parameters of a weak-limit HDP-HMM and of four variants:

- left-to-right (`LTRHDPHMMTransitions`);
- explicit-duration (`HDPHSMMTransitions`);
- sticky (`StickyHDPHMMTransitions`);
- sticky left-to-right (`StickyLTRHDPHMMTransitions`).

One `resample` call does these steps in order:

1. `_count_transitions` tallies adjacent label pairs into `trans_counts`. The
   left-to-right variant then checks that no step goes backward and rebuilds the
   strictly-lower counts from geometric and multinomial draws.
2. The semi-Markov variant runs `_augment_data`. It adds geometric self-transitions
   on the diagonal.
3. `_get_m` draws the CRP table counts `m`.
4. `_resample_beta` draws `beta` from a Dirichlet. In the sticky variants it first
   means to split the diagonal of `m` binomially into `newm`. As written, the split is
   lost and `newm` stays equal to `m` (see "## Findings"); the model carries out the
   split as intended.
5. `_resample_A` draws gamma variates and normalises their rows. Depending on the
   variant it adds `kappa` to the diagonal, keeps the unmasked draw as `fullA`, masks
   the lower triangle, or zeroes the diagonal.

How the model is organised:

- The object is the class `Transitions.HdpTransitions`.
  - `trans_counts`, `m` and `newm` are fields of type `array2<nat>`.
  - `A` and `fullA` are fields of type `array2<real>`.
  - A null field is an attribute not yet assigned.
- Each step is a method that updates those fields in place, as the source does.
  Each method is proved against a specification function on `seq<seq<_>>`.
- The specification functions and their lemmas live in these modules:
  - `HdpHmm` (base class);
  - `LeftToRight`;
  - `SemiMarkov`;
  - `Sticky`.
- Shared sums and matrix helpers are in `Matrices`.
- Every random variate comes from an oracle parameter bundled in `Oracles.Draws`.
  Each oracle carries the one fact about its distribution that the bookkeeping relies
  on, for example:
  - a geometric variate is at least 1;
  - a binomial variate out of `n` is at most `n`;
  - a multinomial split has the requested total.
- A step that ends in an exception returns `Outcomes.Raised`:
  - numpy's `FloatingPointError` from `np.seterr(invalid='raise')` on `0/0`;
  - the left-to-right `assert`.

## Model

| member | source | states |
|---|---|---|
| HdpHmm.CountMatrix | internals/transitions.py:61-68 | the transition counts of `L` states form an `L x L` matrix (what each cell holds is stated by `PairCountIsNumberOfPairs`) |
| HdpHmm.PairCountIsNumberOfPairs | internals/transitions.py:65-66 | the count for `(i, j)` is exactly the number of positions where a sequence steps from `i` to `j` |
| HdpHmm.PairCountExtend | internals/transitions.py:65-66 | visiting one more adjacent pair adds 1 to that pair's count and to no other |
| HdpHmm.CountMatrixAdditive | internals/transitions.py:62-66 | counting a list of sequences is the cell-wise sum of counting its parts; no sequences give the zero matrix |
| HdpHmm.SequenceTotal | internals/transitions.py:64-66 | one sequence adds `len - 1` counts, and none when it is shorter than 2 |
| HdpHmm.CountTotal | internals/transitions.py:61-68 | the counts add up to the total number of steps over all sequences |
| HdpHmm.SuccessesBounds | internals/transitions.py:74-75 | out of `n` trials at most `n` succeed, and at least one when the first trial always succeeds |
| HdpHmm.TableCounts | internals/transitions.py:70-77 | `_get_m` gives a square matrix of the counts' size, and the only error it raises is numpy's `FloatingPointError` (the rest is stated by `TableCountsProperties`) |
| HdpHmm.BetaParams | internals/transitions.py:55 | the Dirichlet parameters `gamma / L + m.sum(0) + 1e-2` have one entry per state, each at least `0.01` when `gamma` is nonnegative |
| HdpHmm.Shape | internals/transitions.py:58 | the gamma shapes `alpha * beta + data + 1e-2` form a square matrix, each entry at least `0.01` when `alpha`, `beta` and the data are nonnegative |
| HdpHmm.TableCountsProperties | internals/transitions.py:70-77 | `_get_m` raises exactly when a positive count sits in a column of weight `alpha * beta[j] == 0`. It gives zeros when all counts are zero. Otherwise `0 <= m <= counts` cell-wise, `m` is 0 where the count is 0, and `m` is at least 1 where the count and the weight are positive and the first trial succeeds (its probability `w / (0 + w)` is 1) |
| HdpHmm.NormalizedRows | internals/transitions.py:59 | dividing each row by its positive sum gives nonnegative rows that sum to 1, zero exactly where the input was zero |
| HdpHmm.GammaDrawsPositive | internals/transitions.py:58 | the shapes `alpha * beta + data + 1e-2` are positive, so every gamma variate and every row sum is positive |
| HdpHmm.ResampledA | internals/transitions.py:57-59 | the resampled `A` is a positive square matrix whose rows each sum to 1 |
| Oracles.DrawTotalAtLeastCount | internals/transitions.py:154 | the sum of `n` geometric variates is at least `n`, and 0 only when `n` is 0 |
| LeftToRight.Reconstructed | internals/transitions.py:97-105 | the rebuilt left-to-right counts are square, the counts' size (what they hold is stated by `ReconstructionProperties`) |
| LeftToRight.CountOutcome | internals/transitions.py:97-105 | the left-to-right counting gives square counts, and the only error it raises is the failed `assert` |
| LeftToRight.ReconstructionProperties | internals/transitions.py:100-104 | the reconstruction keeps the diagonal, the upper triangle and row 0. The strictly-lower part of row `i` sums to the row's drawn total, which is at least the row's count and 0 exactly when the row had no transitions |
| LeftToRight.UpperPartRowSums | internals/transitions.py:110 | the upper triangle of a positive `fullA` has a positive sum in every row, so the division cannot raise |
| LeftToRight.MaskedA | internals/transitions.py:110 | the masked `A` is square, the size of `fullA` (its pattern is stated by `MaskedAPattern`) |
| LeftToRight.MaskedAPattern | internals/transitions.py:107-110 | the left-to-right `A` is zero strictly below the diagonal, positive on and above it, and each row sums to 1 |
| SemiMarkov.NoRepeatsInSequence | internals/transitions.py:142 | a run-length-collapsed sequence has no `(i, i)` pair |
| SemiMarkov.NoSelfTransitions | internals/transitions.py:142-144 | counts over collapsed sequences have a zero diagonal |
| SemiMarkov.SelfTransitions | internals/transitions.py:152-155 | one drawn self-transition total per state |
| SemiMarkov.Augmented | internals/transitions.py:150-158 | the augmented counts are square, the counts' size (what changes is stated by `AugmentedProperties`) |
| SemiMarkov.AugmentedProperties | internals/transitions.py:150-158 | the augmentation changes only the diagonal. It adds nothing when the counts or the state's row sum to 0. Otherwise it adds the sum of one geometric variate per step out of the state, which is at least that row's count |
| SemiMarkov.AugmentedDiagonal | internals/transitions.py:141-156 | on collapsed sequences the augmented diagonal holds exactly the drawn self-transitions |
| SemiMarkov.ZeroDiagonalRowSums | internals/transitions.py:163-164 | with two or more states, zeroing the diagonal of a positive matrix leaves every row a positive sum, so the division cannot raise |
| SemiMarkov.SemiMarkovA | internals/transitions.py:163-164 | the semi-Markov `A` is square, the size of `fullA` (its pattern is stated by `SemiMarkovAPattern`) |
| SemiMarkov.SemiMarkovAPattern | internals/transitions.py:160-164 | the semi-Markov `A` has a zero diagonal, positive entries elsewhere, and rows summing to 1 |
| Sticky.StickySplit | internals/transitions.py:195-202 | the split `newm` is square, the size of `m` (what it holds is stated by `SplitWithinTableCounts`) |
| Sticky.RhoCounts | internals/transitions.py:233 | the two Beta counts of `rho`, `(m - newm).sum()` and `newm.sum()`, add up to `m.sum()`; `newm.sum()` is nonnegative, and so is `(m - newm).sum()` when `m - newm` is |
| Sticky.SplitWithinTableCounts | internals/transitions.py:195-204 | `newm` equals `m` off the diagonal and where `m[i][i]` is 0, with `newm[i][i] <= m[i][i]`. So `m - newm` is nonnegative, and the two Beta counts of `rho` are nonnegative and add up to the sum of `m` |
| Sticky.DifferenceOfSmaller | internals/transitions.py:233 | when `newm <= m` cell-wise, `m - newm` is nonnegative and `(m - newm).sum() + newm.sum() == m.sum()` |
| Sticky.AddDiagonal | internals/transitions.py:206-209 | adding `kappa` on the diagonal changes only the diagonal, by `kappa`, and keeps nonnegative data nonnegative |
| Sticky.SplitLostByDiagonalCopy | internals/transitions.py:198-202 | a split that keeps fewer tables than `m` holds is a different matrix from `m`, so writing it into a copy of the diagonal loses it |
| Sticky.StickyLeftToRightDataAsWritten | internals/transitions.py:237-240 | as written, the sticky left-to-right shape data differ from the counts only on the diagonal, by `2 * kappa` |
| Sticky.StickyLeftToRightAddsKappaTwice | internals/transitions.py:237-240 | as written, the sticky left-to-right diagonal receives `2 * kappa`, which differs from adding it once whenever `kappa != 0` |
| Transitions.CountsFor | internals/transitions.py:96-105 | the counts of each variant are square. Only the left-to-right variants can raise, and then with the failed assertion |
| Transitions.ShapeData | internals/transitions.py:206-209 | what `_resample_A` hands to the gamma draws: the counts plus `kappa` once on each diagonal entry in the sticky variants, nonnegative when `kappa` is |
| Transitions.FromCells | internals/transitions.py:58 | the gamma draws become a fresh `L x L` array holding exactly those cells |
| Transitions.Copy | internals/transitions.py:162 | `A.copy()` is a fresh array with the same cells |
| Transitions.DivideRows | internals/transitions.py:59 | the in-place division leaves each row divided by its original sum |
| Transitions.ZeroDiagonalInPlace | internals/transitions.py:163 | the in-place write leaves the matrix with a zero diagonal and all other cells unchanged |
| Transitions.AddToDiagonal | internals/transitions.py:156 | `+= np.diag(extra)` adds `extra[i]` to each diagonal cell and leaves the rest unchanged |
| Transitions.DrawDiagonal | internals/transitions.py:199 | the binomial draws replace the nonzero diagonal entries in place; every other cell stays |
| Transitions.AugmentedCopy | internals/transitions.py:151-156 | the augmented counts are a fresh array equal to the augmentation of the counts; the input counts are not changed |
| Transitions.CountRowTables | internals/transitions.py:73-75 | one row of the `_get_m` loop raises exactly when the row has a positive count in a zero-weight column; otherwise it fills that row with the successes |
| Transitions.CountTables | internals/transitions.py:71-75 | the loop raises exactly when the table counts do, and otherwise returns a fresh array equal to them |
| Transitions.SplitCopy | internals/transitions.py:195-202 | `newm` is a fresh array equal to the sticky split of `m` |
| Transitions.SplitCopyAsWritten | internals/transitions.py:195-202 | as written, the copy of `m` is left equal to `m` because the draws go into a separate copy of the diagonal |
| Transitions.HdpTransitions.constructor | internals/transitions.py:37-45 | construction from given `beta` and `A` (and `fullA`, which the semi-Markov constructor at lines 130-139 needs) stores them with no counts yet |
| Transitions.HdpTransitions.Default | internals/transitions.py:41-42 | construction without parameters is a resample on no sequences. It leaves zero counts and zero `m`, `beta` drawn from the prior parameter, and `A` (and the semi-Markov `fullA`) drawn from the prior alone, as `_resample_A` draws them on zero counts (`DrawnFrom`). The rows of `A` sum to 1, and the semi-Markov `A` has a zero diagonal. The sticky variants leave `newm` the zero matrix, and the others never assign it |
| Transitions.HdpTransitions.ResampleOnNothing | internals/transitions.py:42 | a Markov resample on no sequences cannot raise. It leaves zero counts and zero table counts, `beta` drawn from the prior parameter, and `A` drawn from zero counts, with rows summing to 1. The sticky variant leaves `newm` the zero matrix, and the plain one leaves `newm` as it was |
| Transitions.HdpTransitions.ResampleSemiMarkovOnNothing | internals/transitions.py:135 | a semi-Markov resample on no sequences draws no self-transitions and cannot raise. It leaves zero counts, `beta` from the prior parameter, `fullA` drawn from zero counts, and `A` that draw with a zero diagonal and rows summing to 1. `newm` is left as it was |
| Transitions.HdpTransitions.CountTransitions | internals/transitions.py:61-68 | `trans_counts` becomes a fresh array equal to the transition-count matrix of the sequences |
| Transitions.HdpTransitions.CountTransitionsLeftToRight | internals/transitions.py:97-105 | it raises exactly when a step goes backward, leaving the plain counts in `trans_counts`. Otherwise `trans_counts` is reconstructed in place to the left-to-right counts |
| Transitions.HdpTransitions.GetM | internals/transitions.py:70-77 | `m` becomes the table counts for weights `alpha * beta`; when numpy raises, `m` is not assigned |
| Transitions.HdpTransitions.ResampleBeta | internals/transitions.py:54-55 | `beta` becomes the Dirichlet draw for `gamma / L + m.sum(0) + 1e-2` |
| Transitions.HdpTransitions.SplitTableCounts | internals/transitions.py:195-203 | `newm` becomes a fresh array holding the sticky split of `m` |
| Transitions.HdpTransitions.SplitTableCountsAsWritten | internals/transitions.py:195-203 | as written, `newm` becomes a fresh copy equal to `m` |
| Transitions.HdpTransitions.ResampleBetaSticky | internals/transitions.py:192-204 | `newm` is the split of `m`, and `beta` is drawn from `newm`'s column sums |
| Transitions.HdpTransitions.ResampleA | internals/transitions.py:57-59 | `A` becomes a fresh array equal to the normalised gamma draws |
| Transitions.HdpTransitions.ResampleALeftToRight | internals/transitions.py:107-110 | the base draw becomes `fullA`, and `A` becomes a separate array, the masked `fullA` |
| Transitions.HdpTransitions.ResampleASemiMarkov | internals/transitions.py:160-164 | `fullA` is a copy of the base draw. `A` is that draw with a zero diagonal and normalised rows: its diagonal is zero and its rows sum to 1 |
| Transitions.HdpTransitions.AugmentData | internals/transitions.py:150-158 | `trans_counts` becomes a fresh array with the augmented counts |
| Transitions.HdpTransitions.CountStep | internals/transitions.py:48 | the variant's `_count_transitions`, which raises exactly when its counts do |
| Transitions.HdpTransitions.BetaStep | internals/transitions.py:51 | the variant's `_resample_beta`: the sticky ones split `m` into `newm` first, the others leave `newm` alone |
| Transitions.HdpTransitions.AStep | internals/transitions.py:52 | the Markov variants' `_resample_A`. `A` is the normalised gamma draw from the counts plus `kappa` once in the sticky variants (`DrawnFrom`), with rows summing to 1. The left-to-right variants keep that draw as `fullA` and mask `A` to its upper triangle; the others leave `fullA` alone |
| Transitions.HdpTransitions.TablesAndBeta | internals/transitions.py:49-51 | it raises exactly when `_get_m` does, leaving `m`, `newm` and `beta` as they were. Otherwise `m` is the table counts under the old `beta`, and `beta` is drawn from `m` (or from `newm` in the sticky variants) |
| Transitions.HdpTransitions.Update | internals/transitions.py:49-52 | the Markov steps after counting. It raises exactly when `_get_m` does, and then every field is left as it was. Otherwise `m` is the table counts, `beta` is drawn from `m` (or the split `newm`), and `A` (and `fullA`) are drawn from the counts as `DrawnFrom` says |
| Transitions.HdpTransitions.Resample | internals/transitions.py:47-52 | a whole Markov resample. It raises the failed assertion exactly on a backward step (left-to-right), leaving the plain counts, and otherwise raises exactly when `_get_m` does on the variant's counts. After any raise `m`, `newm`, `beta`, `A` and `fullA` are as they were. On success `m`, `beta`, `A` and `fullA` are each step's function of the counts (`DrawnFrom`), the rows of `A` sum to 1, and the left-to-right `A` is upper-triangular |
| Transitions.HdpTransitions.CountAndAugment | internals/transitions.py:144 | `trans_counts` becomes the augmented counts of the collapsed sequences |
| Transitions.HdpTransitions.UpdateSemiMarkov | internals/transitions.py:145-148 | the semi-Markov steps after augmentation, on the augmented counts: table counts, `beta`, then `fullA` and the zero-diagonal `A`. `newm` is never touched, and a raise leaves `m`, `beta`, `A` and `fullA` as they were |
| Transitions.HdpTransitions.ResampleSemiMarkov | internals/transitions.py:141-148 | a whole semi-Markov resample. It raises exactly when `_get_m` does on the augmented counts, leaving `m`, `beta`, `A` and `fullA` as they were. On success `fullA` is the unmasked draw, `A` has a zero diagonal and rows summing to 1, and `newm` is never touched |

## Left out

- Random draws: numpy and scipy variates are oracle parameters. Only the fact each step relies on is stated about them (bounds, dimensions, totals, positivity). The probabilities passed to them are not computed: `1 - pi_ii` for the geometric at line 154, `triu(fullA).sum(1)` at line 103, the multinomial `pvals` at line 104, and the binomial probability at line 201.
- Floating point: `beta`, `A` and the gamma shapes are exact reals. The `1e-2` offsets are `0.01`. Rounding and overflow of floating-point sums are not modelled. Underflow is treated unevenly: the Dirichlet oracle allows a `beta[j]` of exactly 0, but the gamma oracle draws only positive variates. In floating point a gamma variate for a shape near 0.01 can underflow to 0.0. Line 110 then divides 0/0 on the one-entry masked row `L - 1`, and line 164 divides 0/0 on a row of a two-state semi-Markov model. So `LeftToRight.UpperPartRowSums` and `SemiMarkov.ZeroDiagonalRowSums` ("cannot raise") hold for exact reals only.
- Integer width: counts are unbounded naturals. The `int32` arrays of lines 62, 71 and 202 could wrap around on more than 2^31 steps.
- `ConcentrationResampling` and the `...ConcResampling` subclasses (lines 16-29, 80-93, 167-180, 212-234): `DirGamma` is not part of this model. So `alpha`, `gamma` and `kappa` are constants of an object, and the `rho` update at lines 233-234 appears only through `Sticky.RhoCounts` and `Sticky.SplitWithinTableCounts`. This also leaves out that the sticky concentration subclass resets `alpha` to the full concentration after each resample.
- `rle`: the run-length collapse at line 142 is not part of this model. The semi-Markov resample takes the collapsed label sequences as input, with the precondition that no label repeats its predecessor.
- Labels: sequences must hold labels in `[0, L)`. Python would wrap a negative index around or raise `IndexError` on a label that is too large.
- Transitions.HdpTransitions.ResampleSemiMarkov: requires `fullA` to be set when the sequences have a step. An object from the constructor or from `Default` always has it, so this only excludes an `AttributeError` that no constructed object can reach.
- Transitions.HdpTransitions.Default: the left-to-right variants are excluded, because their `_count_transitions` reads `fullA` (line 101) before anything assigns it, so in Python their default construction always fails with `AttributeError`. The placeholders it stores for `beta` and `A` stand for attributes that do not exist yet, and the resample on no sequences never reads them.
- Transitions.HdpTransitions.constructor: one constructor for all variants, taking an optional `fullA`. The base constructor (lines 37-45) has no `fullA` argument, and only the semi-Markov one (lines 130-139) does. The semi-Markov variant requires `fullA`, because its Python constructor resamples when `fullA` is missing (that path is `Default`). The plain and sticky Markov variants require it absent. The left-to-right variants may be given it: it stands for a `fullA` attribute that a caller assigns before the first resample. This is how the model meets the need of lines 101 and 104 for `fullA`, since no Python constructor of theirs takes it (the left-to-right class reaches lines 37-45 directly, the sticky left-to-right one through 188-190).
- `0/0` in `_resample_A`: the model requires nonnegative `alpha`, `gamma` and `kappa`, and two or more states for the semi-Markov variant. Under those conditions no row sum is zero. Negative hyperparameters or a one-state semi-Markov model, where numpy would raise, are not modelled.
- Row 0 of the left-to-right reconstruction: the multinomial over the empty slice `fullA[0, :0]` is taken to return an empty split, so row 0 is left as counted.
- Transitions.HdpTransitions.ResampleBetaSticky, BetaStep, AStep, TablesAndBeta, Update and Resample: they follow the intended behaviour of both findings below. The sticky split lands in `newm`, and the sticky left-to-right variant adds `kappa` once. The as-written behaviour appears only in `Transitions.SplitCopyAsWritten`, `Transitions.HdpTransitions.SplitTableCountsAsWritten` and `Sticky.StickyLeftToRightDataAsWritten`.
- Transitions.HdpTransitions.CountTransitionsLeftToRight and AugmentData: numpy's errors on a caller-supplied `fullA` whose entries do not make valid probabilities are not modelled. These are a geometric `p = triu(fullA).sum(1)[i]` outside `(0, 1]` at line 103, a geometric `p = 1 - fullA[i][i]` outside `(0, 1]` at line 154, and `0/0` at line 104 when `fullA[i, :i]` sums to 0 on any row `i >= 1`, whether or not it has transitions (an upper-triangular `fullA` makes every resample raise, even on no sequences). The model lets the oracles draw in these cases, so the left-to-right counting raises only on a backward step and the augmentation never raises.

## Findings

| source | as written | input that shows it | evidently intended | confidence | as-written member | corrected member |
|---|---|---|---|---|---|---|
| internals/transitions.py:198-202 | `newm.flat[::L+1][indices] = ...` assigns into the array that slicing a `flatiter` returns, which is a copy of the diagonal, so `newm` stays equal to `m`. Then `m - newm` is always zero and `beta` is drawn from the unsplit `m` | one state with `m = [[2]]` and a binomial draw of 0: the split is `[[0]]`, but `newm` stays `[[2]]` | the diagonal of `newm` holds the binomial draws, and `m - newm` holds the override tables credited to `kappa` | not executed | Transitions.SplitCopyAsWritten, Sticky.SplitLostByDiagonalCopy | Transitions.SplitCopy, Sticky.SplitWithinTableCounts |
| internals/transitions.py:237-240 | `StickyLTRHDPHMMTransitions._resample_A` adds `kappa` and calls `super()`, which is the left-to-right `_resample_A`. Under the method resolution order (sticky LTR, LTR, sticky, base), that one's `super()` is the sticky `_resample_A`, which adds `kappa` again | any `kappa != 0`, for example `kappa = 1` on one state with count 0: the diagonal shape data is 2, not 1 | `kappa` added once to each diagonal entry, as in the sticky variant | not executed | Sticky.StickyLeftToRightDataAsWritten, Sticky.StickyLeftToRightAddsKappaTwice | Transitions.ShapeData |
