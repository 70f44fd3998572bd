# SCoT connectivity statistics in Dafny

A model of the statistics layer of SCoT (Source Connectivity Toolbox), `scot/connectivity_statistics.py`.
This layer sits around an opaque VAR fit and an opaque connectivity computation. The model covers:

- `significance_fdr` (`fdr.dfy`, module `Fdr`): the Benjamini–Hochberg step-up procedure (Benjamini and Hochberg 1995).
  - p-values are `Num(v)` or `NaN`.
  - `np.argsort` is the library's promise, as a parameter `order` satisfying `IsArgsort`: a permutation that sorts NaN last, with ties in any order.
  - The rank scatter `j.flat[i] = arange(1, size+1)` is an imperative loop over an array, `ScatterRanks`.
  - The rest (`m`, the mask, `k`, `s`) is the function `SignificantByRank`.
- `test_bootstrap_difference` (`difference_test.dfy`, module `DifferenceTest`): the pairwise sign counts `s1`, `s2` and the p-value `min(s1, s2) / (n*n)`.
  - The loop over the pairs `(i, j)` is the nested pair of methods `CountSigns` / `AddRowSigns`.
  - Each column's result is proved equal to the per-column function `PValue`.
  - Arrays reshaped to `(repeats, -1)` are `Samples`: rows of equal width.
- Jackknife blocks and bootstrap draws (`resampling.dfy`, module `Resampling`):
  - the block length and the number of blocks;
  - the list comprehension of kept trials;
  - fancy indexing `data[:, :, mask]`;
  - `np.random.random_integers(0, t-1, num_samples)`, with the generator's words as a parameter.
- The three estimators (`estimators.dfy`, module `Estimators`): `surrogate_connectivity`, `jackknife_connectivity` and `bootstrap_connectivity`.
  - The VAR object is a class `VarModel` whose `Fit` overwrites `coef` and `rescov`. A ghost history `fitted` records every data set fitted.
  - The fit itself, `connectivity(...)` and `randomize_phase` are function parameters.
- `convert_output_` (`aggregate.dfy`, module `Aggregate`): stacking the per-repetition results, or a dictionary of stacked results keyed by the requested measure names.

`wrappers.dfy` holds the `Option` and `Result` types.

## Model

| member | source | states |
|---|---|---|
| Fdr.IsArgsort | scot/connectivity_statistics.py:239 | what `np.argsort(p, axis=None)` may return: a permutation of the positions (its contract), ascending by value with NaN after every number, ties in any order |
| Fdr.Ranks | scot/connectivity_statistics.py:239-243 | the rank of the element at sorted position r is r+1, and every rank lies in 1..size: a permutation of 1..size |
| Fdr.ScatterRanks | scot/connectivity_statistics.py:242-243 | the in-place scatter `j.flat[i] = arange(1, size+1)` produces exactly the ranks |
| Fdr.RankPosition | scot/connectivity_statistics.py:239-243 | the element of rank r is the one argsort put at position r-1 |
| Fdr.RanksFollowAscendingOrder | scot/connectivity_statistics.py:239-243 | a smaller rank never belongs to a larger p-value, and a NaN never ranks before a number |
| Fdr.NanCountIsNanSetSize | scot/connectivity_statistics.py:240 | the NaN count is the number of NaN positions, so `m` = size minus that number |
| Fdr.NanCount | scot/connectivity_statistics.py:240 | `np.sum(np.isnan(p))` is at most the size, 0 exactly when every entry is a number, and the size exactly when every entry is NaN |
| Fdr.NumberCount | scot/connectivity_statistics.py:240 | `m` is at most the size, equals it exactly when no entry is NaN, and is 0 exactly when every entry is NaN |
| Fdr.Qualifies | scot/connectivity_statistics.py:245 | only a number can pass `p <= alpha*j/m`, and only when m > 0: a NaN comparison is false, and m = 0 never qualifies |
| Fdr.NanRanksFollowNumbers | scot/connectivity_statistics.py:239-240 | an entry is NaN exactly when its rank exceeds `m`: the m numbers hold ranks 1..m |
| Fdr.MaxRank | scot/connectivity_statistics.py:251 | `k` is a rank of some qualifying entry and no qualifying entry has a larger rank |
| Fdr.SignificantByRank | scot/connectivity_statistics.py:240-254 | m, the mask, the early return, k and `s = j <= k` for a given rank array; the result has the input's shape (`FdrMaskIsStepUp` states what it selects) |
| Fdr.FdrMask | scot/connectivity_statistics.py:215-256 | the mask has the shape of the input |
| Fdr.SignificanceFdr | scot/connectivity_statistics.py:215-256 | the method (scatter, then mask) returns the shape of p and equals the mask function |
| Fdr.FdrMaskIsStepUp | scot/connectivity_statistics.py:245-254 | an entry is significant if and only if some qualifying entry (p <= alpha*rank/m) has a rank at least its own |
| Fdr.NoQualifyingEntryMeansAllFalse | scot/connectivity_statistics.py:245-248 | when no entry qualifies, the result is all false |
| Fdr.QualifyingEntriesAreSignificant | scot/connectivity_statistics.py:245-254 | every qualifying entry is significant |
| Fdr.SignificantSetIsDownwardClosed | scot/connectivity_statistics.py:251-254 | every entry ranked at or below a significant one is significant |
| Fdr.SmallerPValueIsSignificant | scot/connectivity_statistics.py:239-254 | a number smaller than a significant p-value is significant |
| Fdr.NaNIsNeverSignificant | scot/connectivity_statistics.py:240-254 | NaN entries are never significant |
| Fdr.FdrMaskMonotoneInAlpha | scot/connectivity_statistics.py:245-254 | raising alpha never removes an entry from the significant set |
| Fdr.FdrCountMonotoneInAlpha | scot/connectivity_statistics.py:245-254 | raising alpha never lowers the number of significant entries |
| Fdr.CountTrueMonotone | scot/connectivity_statistics.py:247 | a mask contained in another has no more true entries |
| Fdr.QualifiesMonotoneInAlpha | scot/connectivity_statistics.py:245 | the test p <= alpha*rank/m is monotone in alpha |
| Fdr.QualifiesAtHigherRank | scot/connectivity_statistics.py:245 | for alpha >= 0 a value that qualifies at one rank qualifies at every higher rank |
| Fdr.AboveAlphaNeverQualifies | scot/connectivity_statistics.py:245 | for alpha >= 0, a p-value above alpha never qualifies at a rank up to m |
| Fdr.TiedValuesShareSignificance | scot/connectivity_statistics.py:239-254 | for alpha >= 0 equal p-values are significant together, whatever order argsort gives to ties |
| Fdr.TieBelowQualifies | scot/connectivity_statistics.py:239-245 | an entry ranked between two tied entries holds their value, so its qualifying carries over to the higher-ranked one |
| Fdr.FdrMaskIgnoresTieOrder | scot/connectivity_statistics.py:239-254 | for alpha >= 0 any two orders argsort may return give the same mask: the order of ties never changes the result |
| Fdr.SignificantUnderAnyArgsort | scot/connectivity_statistics.py:239-254 | for alpha >= 0 an entry significant under one argsort is significant under every other |
| Fdr.SignificantHasQualifyingTie | scot/connectivity_statistics.py:239-254 | a significant entry has a qualifying entry whose rank is at most the number of numbers no larger than it, and is itself one of those numbers |
| Fdr.QualifyingTieMarksAtMost | scot/connectivity_statistics.py:239-254 | for alpha >= 0, if a value qualifies at a rank no larger than the count of numbers up to that value, every such number is significant under any argsort |
| Fdr.TieAtTopRank | scot/connectivity_statistics.py:239-243 | under any argsort the entry at rank c, where c counts the numbers no larger than p[y], holds the value p[y] |
| Fdr.RankWithinAtMost | scot/connectivity_statistics.py:239-243 | a number no larger than v has a rank at most the count of numbers no larger than v |
| Fdr.AtMostTakesLowestRanks | scot/connectivity_statistics.py:239-243 | the numbers no larger than v are exactly the entries at the first sorted positions |
| Fdr.TieOrderMattersForNegativeAlpha | scot/connectivity_statistics.py:239-254 | with alpha = -1 and two tied p-values of -0.6, the two argsort orders give different masks |
| Fdr.IdentitySortsAscending | scot/connectivity_statistics.py:239-243 | for values already ascending, the identity order is an argsort and gives position x rank x+1 |
| Fdr.PValuesAboveAlphaAreNeverSignificant | scot/connectivity_statistics.py:245-248 | for alpha >= 0, when every number exceeds alpha nothing is significant |
| Fdr.ThreeOfFiveAreSignificant | scot/connectivity_statistics.py:215-256 | p = 0.01, 0.02, 0.03, 0.5, 0.7 at alpha 0.05 gives true, true, true, false, false |
| DifferenceTest.CountAtLeast | scot/connectivity_statistics.py:185-188 | the `c >= 0` count of one row of a against the rows of b is at most the number of rows of b |
| DifferenceTest.CountAtMost | scot/connectivity_statistics.py:185-189 | the `c <= 0` count of one row of a against the rows of b is at most the number of rows of b |
| DifferenceTest.NoneAtLeast | scot/connectivity_statistics.py:185-188 | one row's `>= 0` count is 0 exactly when every difference in it is negative |
| DifferenceTest.NoneAtMost | scot/connectivity_statistics.py:185-189 | one row's `<= 0` count is 0 exactly when every difference in it is positive |
| DifferenceTest.PairsAtLeast | scot/connectivity_statistics.py:184-188 | s1 of a column, the `>= 0` count over all pairs, is at most the number of pairs |
| DifferenceTest.PairsAtMost | scot/connectivity_statistics.py:184-189 | s2 of a column, the `<= 0` count over all pairs, is at most the number of pairs |
| DifferenceTest.RowCountsCoverRow | scot/connectivity_statistics.py:188-189 | per row of a, the `>= 0` and `<= 0` counts together cover every b row |
| DifferenceTest.PairCountsCoverAllPairs | scot/connectivity_statistics.py:185-189 | s1 + s2 >= number of pairs, in every column |
| DifferenceTest.NoPairAtLeast | scot/connectivity_statistics.py:188 | s1 is 0 exactly when every difference b[j]-a[i] is negative |
| DifferenceTest.NoPairAtMost | scot/connectivity_statistics.py:189 | s2 is 0 exactly when every difference b[j]-a[i] is positive |
| DifferenceTest.PValue | scot/connectivity_statistics.py:191 | a column's p-value lies in [0, 1] and is 0 exactly when all differences have one strict sign |
| DifferenceTest.PValuesOver | scot/connectivity_statistics.py:191 | one p-value per column, each in [0, 1] and 0 exactly when that column's differences all have one strict sign |
| DifferenceTest.BootstrapPValues | scot/connectivity_statistics.py:178-193 | a result exists exactly when a has repeats, the widths agree and b has at least as many repeats as a; it has one p-value per column |
| DifferenceTest.BootstrapPValuesAreOneSidedFractions | scot/connectivity_statistics.py:182-193 | every returned p-value is in [0, 1] and is 0 exactly when the n*n differences of its column are strictly of one sign |
| DifferenceTest.CountSigns | scot/connectivity_statistics.py:184-189 | after the loops, s1 and s2 of every column are the `>= 0` and `<= 0` counts over all n*n pairs |
| DifferenceTest.AddRowSigns | scot/connectivity_statistics.py:185-189 | the pairs with a fixed i add that row's counts to s1 and s2 |
| DifferenceTest.TestBootstrapDifference | scot/connectivity_statistics.py:178-193 | the loop computes the as-written p-values, with the same error cases |
| DifferenceTest.AllPairsPValues | scot/connectivity_statistics.py:170-172 | the documented test over all a.shape[0]*b.shape[0] pairs: defined for any two non-empty ensembles of equal width, each p-value in [0, 1] and 0 exactly for a strict sign |
| DifferenceTest.AsWrittenIgnoresRepeatsOfB | scot/connectivity_statistics.py:182-191 | counterexample: a = [[0]], b = [[1], [-1]] gives 0 as written, where all pairs give 1/2 |
| DifferenceTest.AsWrittenRejectsShorterB | scot/connectivity_statistics.py:182-191 | counterexample: a = [[0], [0]], b = [[1]] fails as written, where all pairs give 0 |
| DifferenceTest.PairsAtLeastTransposed | scot/connectivity_statistics.py:188-189 | counting `>= 0` over (a, b) equals counting `<= 0` over (b, a) |
| DifferenceTest.SelfComparisonIsAtLeastHalf | scot/connectivity_statistics.py:191 | comparing an ensemble with itself never gives a p-value below 0.5 |
| DifferenceTest.ShiftedEnsembleGivesZero | scot/connectivity_statistics.py:178-193 | an ensemble shifted up by 10 against the original gives p = 0 |
| Resampling.BlockLength | scot/connectivity_statistics.py:86-87 | the block length is leaveout itself for leaveout >= 1, positive exactly then, and 0 exactly when leaveout is 0, or leaveout < 1 and there are no trials |
| Resampling.NumBlocks | scot/connectivity_statistics.py:89 | division by a zero block length fails; otherwise the count q satisfies q*leaveout <= t < (q+1)*leaveout, and is 0 for leaveout < 1 |
| Resampling.KeptTrials | scot/connectivity_statistics.py:93 | the mask holds trials below t outside the block, strictly increasing |
| Resampling.KeptTrialsExactly | scot/connectivity_statistics.py:93 | a trial is in the mask if and only if it lies below t and outside [lo, hi) |
| Resampling.KeptTrialsAroundBlock | scot/connectivity_statistics.py:93 | for a block inside the trials, the mask is 0..lo-1 followed by hi..t-1 |
| Resampling.BlockMask | scot/connectivity_statistics.py:93 | with lo = b*leaveout, a trial is in the mask of block b exactly when it is below t and outside [lo, lo + leaveout) |
| Resampling.BlockMaskLength | scot/connectivity_statistics.py:91-93 | a jackknife mask has length t - leaveout |
| Resampling.BlockInside | scot/connectivity_statistics.py:89-93 | every one of the t / leaveout blocks lies inside the trials |
| Resampling.OmittedExactlyOnce | scot/connectivity_statistics.py:89-93 | a trial below num_blocks*leaveout is left out by block i / leaveout and no other; a later trial is never left out |
| Resampling.SelectTrials | scot/connectivity_statistics.py:94 | `data[:, :, mask]` has one trial per mask entry |
| Resampling.JackknifeDataCutsBlock | scot/connectivity_statistics.py:93-94 | the data of estimate b is the data with the trials of block b cut out |
| Resampling.RandomIntegers | scot/connectivity_statistics.py:137 | the draws succeed exactly for a non-empty interval and a non-negative size, giving size values all inside [low, high] |
| Resampling.BootstrapMask | scot/connectivity_statistics.py:137 | num_samples trial indices, each in [0, t-1]; an error when there are no trials or num_samples < 0 |
| Aggregate.FirstMissing | scot/connectivity_statistics.py:263 | reports a name exactly when some requested name is missing from some result |
| Aggregate.ConvertOutput | scot/connectivity_statistics.py:259-265 | one name stacks the results unchanged; a list gives a map keyed by exactly those names with entry r of m equal to output[r][m], and fails when a result lacks a requested name |
| Aggregate.ConvertOutputRoundTrip | scot/connectivity_statistics.py:259-265 | the ensemble has len(output) repetitions and repetition r reads back output[r] (restricted to the requested names) |
| Estimators.VarModel.Fit | scot/connectivity_statistics.py:46 | fit overwrites coef and rescov with the fit of the data and records one more fit |
| Estimators.Finish | scot/connectivity_statistics.py:50 | the estimator's result is convert_output_'s, and a success holds one entry per result |
| Estimators.MeasureOf | scot/connectivity_statistics.py:47-48 | one repetition's result is connectivity applied to the fit of its data |
| Estimators.FitAndMeasure | scot/connectivity_statistics.py:47-48 | `var.fit` followed by `connectivity` returns the repetition's result (`MeasureOf` of its data) and records exactly one more fit |
| Estimators.Outputs | scot/connectivity_statistics.py:44-49 | one result per fitted data set, in order: entry r is the result of fitting the r-th data set |
| Estimators.Repetitions | scot/connectivity_statistics.py:45 | `range(repeats)` has no elements exactly when repeats <= 0, and otherwise repeats of them |
| Estimators.SurrogateInputs | scot/connectivity_statistics.py:45-47 | one data set per repetition, repetition r fitting the r-th phase randomisation |
| Estimators.SurrogateConnectivity | scot/connectivity_statistics.py:44-50 | exactly max(repeats, 0) fits, repetition r on the r-th surrogate, and the aggregated results in order |
| Estimators.JackknifeInputs | scot/connectivity_statistics.py:92-94 | one data set per block, each the trials its mask selects (`JackknifeInputsCutBlocks` says which) |
| Estimators.JackknifeConnectivity | scot/connectivity_statistics.py:83-98 | a zero block length fails before any fit; otherwise t / leaveout fits, estimate b on the mask of block b, and that many aggregated results |
| Estimators.JackknifeInputsCutBlocks | scot/connectivity_statistics.py:91-95 | estimate b is fitted on the data without the trials of block b |
| Estimators.SampleCount | scot/connectivity_statistics.py:132-133 | num_samples is t when not given and the given count otherwise |
| Estimators.BootstrapInputs | scot/connectivity_statistics.py:136-138 | one data set per repetition, each of num_samples trials (`BootstrapInputsDrawFromData` shows every one is a trial of the data) |
| Estimators.BootstrapInputsDrawFromData | scot/connectivity_statistics.py:137-138 | every trial of every bootstrap data set is a trial of the data |
| Estimators.BootstrapConnectivity | scot/connectivity_statistics.py:129-142 | num_samples defaults to t; a refused draw fails before any fit; otherwise max(repeats, 0) fits, each on num_samples drawn trials, and that many aggregated results |

## Left out

- Floating point: p-values, alpha and the differences are exact reals. Rounding in `alpha*j/m` and in `min(s1, s2)/(n*n)` is not modelled.
- `np.argsort` is not implemented. The model takes any permutation that sorts ascending with NaN last. The library's tie order (quicksort) is not modelled. `FdrMaskIgnoresTieOrder` proves that for alpha >= 0 any two such orders give the same mask. For alpha < 0 the result can depend on the tie order (`TieOrderMattersForNegativeAlpha`), so there the model's answer is the one for the order passed in.
- `significance_fdr` works on flattened arrays. The reshaping back to `p.shape` is the identity on the flat sequence.
- `significance_fdr` with `m == 0` divides by zero. With m == 0 every entry is NaN (or p is empty), so every comparison at line 245 is false whatever the threshold. The model treats the test as false when m is 0, with the same all-false result.
- `test_bootstrap_difference` raises different exceptions. The model keeps only which error comes first, as an error value.
  - When `a` or `b` has no repeats, the reshape at line 179 or line 180 raises, because NumPy cannot infer `-1` for an empty array. This is the error `EmptyEnsemble`.
  - When `b` has fewer repeats than `a`, the loop indexes past the end of `b`. This is the error `IndexOutOfRange`.
  - Unequal column counts are the error `ShapeMismatch`.
  - NumPy broadcasting of a width-1 operand is not modelled.
  - The final `reshape(old_shape)` is the identity on the flat column sequence.
- `test_rank_difference_a` calls scipy's Welch t-test per column. This is floating-point statistics from a library outside this model.
- `randomize_phase`, `connectivity(...)` and the least-squares `fit` (FFT, linear algebra) are function parameters. So is the `nfft` argument they receive.
- The parameters `estimate`, `connectivity` and `phase` never fail. In the source, an exception from `fit`, `connectivity` or `randomize_phase` ends the loop and returns no ensemble (lines 44-50, 91-98, 135-142). The drivers here do not model that.
- The random generator's distribution is not modelled.
  - The draws are the parameter `draw(r, q)`, reduced into `[0, t-1]`.
  - The phase randomisation of repetition r is the parameter `phase(data, r)`.
- Resampling.BlockLength: a fractional `leaveout` (a float below 1, converted by `int(leaveout * t)`) is not modelled. Only integer `leaveout` is modelled, where values below 1 become `leaveout * t`. Likewise `int(t / leaveout)` is modelled as exact truncating division.
- `np.atleast_3d` is not modelled. The data is always a sequence of trials, so a 2D input is one trial.
- Estimators.VarModel.Fit: the VAR object's other state (model order, fitting options) is not modelled, only `coef` and `rescov`.
- `convert_output_` with one name builds a NumPy array. The model keeps the list of results, so shapes are not checked.
- `scot/builtin/binica.py`, `scot/backend/sklearn.py` and `examples/example_03_MVARICAvsCSPVARICA.py` are I/O, library wrappers and a plotting script. They are not part of this model.

## Findings

| source | as written | input that shows it | evidently intended | confidence | as-written member | corrected member |
|---|---|---|---|---|---|---|
| scot/connectivity_statistics.py:182-191 | `n = a.shape[0]` bounds both indices of the pairs, so only `b[0..n)` is used and the count is divided by `n*n`. | a = [[0]], b = [[1], [-1]] gives p = 0 although half the differences are negative. | Every pair of the `a.shape[0] * b.shape[0]` (lines 161, 170-171), divided by that product; this input then gives p = 0.5. | high, not executed | DifferenceTest.AsWrittenIgnoresRepeatsOfB | DifferenceTest.AllPairsPValues |
| scot/connectivity_statistics.py:182-186 | The index `i[1]` into `b` ranges over `0..n-1` with `n = a.shape[0]`, so a `b` with fewer repeats than `a` raises an index error. | a = [[0], [0]], b = [[1]] | Any two non-empty ensembles of equal width are compared (line 161); this pair gives p = 0. | high, not executed | DifferenceTest.AsWrittenRejectsShorterB | DifferenceTest.AllPairsPValues |
