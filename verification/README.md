# MICE imputer: a Dafny model of its combinatorial skeleton

This project models the core of fancyimpute's `MICE` imputer (multivariate
imputation by chained equations) and proves properties of the model. The imputer
fills the missing (NaN) cells of a numeric matrix in four stages:

- It plans an order in which to visit the columns (`get_visit_indices`).
- It seeds every missing cell with a value copied from an observed cell of the
  same column (`initialize`).
- It runs `n_burn_in + n_imputations` rounds. In each round every visited column
  is refitted on the other columns and its missing cells are redrawn, in place
  (`perform_imputation_round`). The flattened missing cells are kept after every
  round past the burn-in (`multiple_imputations`).
- `complete` writes the per-cell mean of the kept samples into a copy of the input.

The model is functional:

- Matrices are `seq<seq<V>>`. A mask is a `seq<seq<bool>>` in which `true` marks a
  missing cell. The width is passed explicitly.
- Input cells are `Entry = NaN | Num(real)`. The working matrix holds `real`s, with
  a `0.0` placeholder in missing cells, which initialisation overwrites.
- Values are exact reals.
- The regression model is a `Regressor` of caller-supplied functions.
- Every random choice comes from a `Chance` of caller-supplied oracles. The
  initial draws and the choice of donor row are indices reduced modulo the number
  of choices, so every legal choice is reachable without a range precondition.
  The predictor subsetting draw is instead an oracle ranking of the candidate
  columns (a real priority per column), of which the first `n` are taken.

Modules, in dependency order:

| module | models |
|---|---|
| `Outcomes` | `Option`, `Result`, and the three errors the core raises |
| `Ordering` | permutations, `np.argsort`, reversal, the k smallest, drawing without replacement |
| `Grid` | `mask.sum(0)`, boolean row selection, `np.ix_` sub-matrices, masked column assignment |
| `Flatten` | `x[mask]` (row-major gather) and `x[mask] = v` (scatter) |
| `Augment` | `np.isnan`, `np.column_stack` of the column of ones, `[:, :-1]` |
| `MiceTypes` | the settings (with the choice of predictor rule), the regression model and the random oracles |
| `VisitOrder` | `get_visit_indices` |
| `Initializer` | `initialize` |
| `Predictors` | `other_cols` and the predictor subsetting |
| `Pmm` | predictive mean matching |
| `RoundExecutor` | `perform_imputation_round` |
| `RoundChain` | the loop of `multiple_imputations`, for any round that keeps observed cells |
| `Averaging` | `imputed_arrays.mean(axis=0)` |
| `Driver` | `multiple_imputations` and `complete` |

Two generic layers keep the proofs small:

- `RoundExecutor.Steps` runs a round for any column `Update`.
- `RoundChain.Chain` runs the rounds for any `Advance`.

Their lemmas are stated over these abstract functions.

The predictor subsetting of fancyimpute/MICE.py:154 has a defect (see Findings). The
setting `predictorRule` chooses the rule the round fits on: `AsWrittenRule` is the
code's behaviour and `CorrectedRule` the evidently intended one. Every property of the
round, the driver and `complete` is proved for both. The imputer's own update and
round are connected to them by instantiation lemmas (`ColumnUpdate*`, `ImputerRound*`).

## Model

| member | source | states |
|---|---|---|
| VisitOrder.VisitIndices | fancyimpute/MICE.py:213-229 | succeeds exactly for `roman`, `arabic`, `monotone` and `revmonotone`, otherwise fails with `InvalidVisitOrder` naming the policy; on success the order is a permutation of the columns; `roman` is ascending, `arabic` descending, `monotone` non-increasing and `revmonotone` non-decreasing in missing count |
| VisitOrder.ArabicReversesRoman | fancyimpute/MICE.py:220-223 | the `arabic` order is the `roman` order reversed |
| VisitOrder.MonotoneReversesRevmonotone | fancyimpute/MICE.py:224-227 | `monotone` and `revmonotone` are each other's reversal |
| VisitOrder.MonotoneExtremes | fancyimpute/MICE.py:224-227 | `monotone` starts with a column of maximal missing count and ends with one of minimal count; `revmonotone` starts with one of minimal count and ends with one of maximal count |
| Ordering.ArgSort | fancyimpute/MICE.py:225 | `np.argsort`: a permutation of the indices that orders the keys non-decreasingly |
| Ordering.SortPrefix | fancyimpute/MICE.py:225 | sorting the first `n` indices gives a sorted arrangement of exactly those indices |
| Ordering.InsertByKey | fancyimpute/MICE.py:225 | inserting an index into a sorted arrangement keeps it sorted and adds exactly that index |
| Ordering.HeadBelowRest | fancyimpute/MICE.py:225 | a head no larger than the inserted key stays in front of the sorted rest |
| Ordering.MultisetPermutation | fancyimpute/MICE.py:225 | an arrangement with the multiset of `0..n-1` is a permutation of `0..n-1` |
| Ordering.TwoOccurrences | fancyimpute/MICE.py:225 | a repeated entry occurs at least twice in the multiset |
| Ordering.IotaOnce | fancyimpute/MICE.py:221 | `np.arange(n)` holds each value at most once |
| Ordering.IotaPermutation | fancyimpute/MICE.py:221 | `np.arange(n)` is a permutation of `0..n-1` |
| Ordering.ReversePermutation | fancyimpute/MICE.py:223-225 | reversing a permutation gives a permutation, and reversing an ascending arrangement gives a descending one |
| Ordering.ReverseReverse | fancyimpute/MICE.py:225-227 | reversing twice restores the sequence |
| Ordering.Smallest | fancyimpute/MICE.py:178 | `np.argpartition(D, k)[:k]`: `k` distinct indices, none farther than any index left out |
| Ordering.SortedPrefixSmallest | fancyimpute/MICE.py:178 | the first `k` entries of a sorted arrangement are no larger than any entry outside them |
| Ordering.TakeByPriority | fancyimpute/MICE.py:150-160 | drawing `n` candidates by priority yields `n` candidates, without repetition when the candidates are distinct |
| Ordering.ElementsBound | fancyimpute/MICE.py:178 | a sequence has at most as many distinct elements as entries |
| Ordering.SubsetCardinality | fancyimpute/MICE.py:178 | a subset is no larger than its superset |
| Ordering.EarlierVisited | fancyimpute/MICE.py:137 | a column is among the first `n` visited iff it is among the first `n - 1` or is the `n`-th |
| Grid.RankBelowCount | fancyimpute/MICE.py:183 | a missing cell's rank among its column's missing cells is below the column's count |
| Grid.RanksBelowCount | fancyimpute/MICE.py:183 | every missing cell's rank is below its column's count |
| Grid.RankAtMostRows | fancyimpute/MICE.py:136 | a column counts at most one missing cell per row |
| Grid.UnsetBelowRows | fancyimpute/MICE.py:205 | a column with an observed cell counts fewer missing cells than rows |
| Grid.RowsUpTo | fancyimpute/MICE.py:141-143 | the rows selected by a boolean column mask: exactly the matching rows, ascending, as many as counted, each at its rank |
| Grid.MissingRows | fancyimpute/MICE.py:138 | the missing rows of a column number its missing count |
| Grid.ObservedRows | fancyimpute/MICE.py:141 | the observed rows of a column number the rows minus its missing count |
| Grid.Pick | fancyimpute/MICE.py:143 | one entry per selected row |
| Grid.SubMatrix | fancyimpute/MICE.py:162 | `X[np.ix_(rows, cols)]` has one row per selected row and one column per selected column |
| Grid.ObservedValues | fancyimpute/MICE.py:143 | the observed values of a column, one per observed row, each taken from an observed cell |
| Grid.ObservedCellListed | fancyimpute/MICE.py:207 | conversely, every observed cell's value is among the column's observed values |
| Grid.AssignColumn | fancyimpute/MICE.py:183-184 | `x[mask[:, c], c] = vals`: the k-th missing cell of column `c` receives `vals[k]`, every other cell is unchanged |
| Grid.AssignColumnReadBack | fancyimpute/MICE.py:183-184 | reading the missing cells back after the assignment gives `vals` |
| Grid.AssignedFromValues | fancyimpute/MICE.py:210 | every assigned value is one of `vals` |
| Grid.ObservedValuesAgree | fancyimpute/MICE.py:143 | matrices that agree on a column's observed cells have the same observed values there |
| Flatten.CountMonotone | fancyimpute/MICE.py:270 | counting set cells is monotone, strictly across a set cell |
| Flatten.OffsetMonotone | fancyimpute/MICE.py:270 | row offsets of the flattening are monotone |
| Flatten.FlatIndexBound | fancyimpute/MICE.py:270 | a missing cell's flat position lies inside its row's block, below the total |
| Flatten.RowGather | fancyimpute/MICE.py:270 | flattening one row puts each set cell at its rank within the row |
| Flatten.GatherRows | fancyimpute/MICE.py:270 | flattening the first `n` rows puts each set cell at its row-major rank |
| Flatten.Gather | fancyimpute/MICE.py:270 | `x[mask]`: one value per missing cell, each at the cell's row-major rank |
| Flatten.Scatter | fancyimpute/MICE.py:281 | `x[mask] = v`: unmasked cells unchanged, each masked cell receives `v` at its row-major rank |
| Flatten.RowGatherBlock | fancyimpute/MICE.py:270 | a row whose set cells hold a block of `v` flattens to that block |
| Flatten.GatherScatter | fancyimpute/MICE.py:270-281 | flattening after scattering `v` gives back `v` |
| Flatten.GatherScatterRows | fancyimpute/MICE.py:270-281 | the row-by-row step of that round trip |
| Flatten.ScatterGather | fancyimpute/MICE.py:270-281 | scattering a matrix's own flattening gives back the matrix |
| Augment.IsNan | fancyimpute/MICE.py:241 | `np.isnan(X)`: same shape, a cell is marked iff it is NaN |
| Augment.Numeric | fancyimpute/MICE.py:241-246 | the input as reals: every observed cell keeps its value |
| Augment.AppendColumn | fancyimpute/MICE.py:245-250 | `np.column_stack`: every row gains one cell holding the new value, old cells unchanged |
| Augment.DropLastColumn | fancyimpute/MICE.py:271-273 | `[:, :-1]`: every row loses its last cell, the rest unchanged |
| Augment.DropAppended | fancyimpute/MICE.py:245-273 | stripping the appended column restores the matrix |
| Augment.AppendedRank | fancyimpute/MICE.py:247-250 | an all-false appended mask column changes no column's missing count |
| Augment.AppendedFalseCount | fancyimpute/MICE.py:247-250 | a false cell at the end of a row adds no set cell |
| Augment.AppendedRowGather | fancyimpute/MICE.py:270 | flattening a row with an unset extra cell gives the same values |
| Augment.AppendedRow | fancyimpute/MICE.py:270 | the same for a whole row |
| Augment.AppendedOffset | fancyimpute/MICE.py:270 | the extra unset column moves no row's offset |
| Augment.AppendedFlatIndex | fancyimpute/MICE.py:270 | the extra unset column moves no cell's flat position |
| Augment.AppendedGatherRows | fancyimpute/MICE.py:270 | the extra column leaves the flattening of the first `n` rows unchanged |
| Augment.AppendedGather | fancyimpute/MICE.py:245-270 | flattening with the column of ones and its all-false mask column gives the same samples and the same count as without |
| MiceTypes.ObservedTransfer | fancyimpute/MICE.py:207 | a value observed in a column stays observed in any matrix agreeing on the observed cells |
| Initializer.InitialDraws | fancyimpute/MICE.py:207-209 | one drawn value per missing cell of the column, each an observed value of that column |
| Initializer.InitStep | fancyimpute/MICE.py:203-210 | one iteration changes only the missing cells of its column, each to an observed value of that column |
| Initializer.InitSteps | fancyimpute/MICE.py:203-210 | the loop keeps the shape |
| Initializer.InitStepsFrame | fancyimpute/MICE.py:201-210 | observed cells and the cells of columns not yet visited keep their values |
| Initializer.InitStepsDrawObserved | fancyimpute/MICE.py:206-210 | every missing cell of a visited column holds a value observed in that column |
| Initializer.Initialize | fancyimpute/MICE.py:197-211 | the copy keeps the shape, every observed cell and the missing cells of unvisited columns; every missing cell of a visited column holds a value observed in that column |
| Initializer.InitializeFrame | fancyimpute/MICE.py:201-210 | the frame part of `Initialize`, over the loop |
| Initializer.InitializeDraws | fancyimpute/MICE.py:206-210 | the drawing part of `Initialize`, over the loop |
| Initializer.InitializeIgnoresMissingCells | fancyimpute/MICE.py:201-210 | when every column is visited, the placeholders in missing cells do not affect the result |
| Initializer.InitStepsAgree | fancyimpute/MICE.py:203-210 | inputs that agree on the observed cells agree after `n` iterations on observed cells and visited columns |
| Initializer.InitStepAgree | fancyimpute/MICE.py:207-210 | one iteration reads only the observed cells of its column |
| Predictors.OtherColumns | fancyimpute/MICE.py:142 | `other_cols`: every column but `col_idx`, ascending, never `col_idx` |
| Predictors.OtherColumnsComplete | fancyimpute/MICE.py:142 | every column but `col_idx` is among them |
| Predictors.Priorities | fancyimpute/MICE.py:147-160 | one random rank per candidate column |
| Predictors.IncreasingDistinct | fancyimpute/MICE.py:142 | an ascending column list repeats no column |
| Predictors.Sample | fancyimpute/MICE.py:157-160 | `np.random.choice(..., replace=False)`: `n` distinct candidates |
| Predictors.SampleButLast | fancyimpute/MICE.py:148-153 | `n` distinct columns from `other_cols[:-1]`: none is `col_idx` or the column of ones |
| Predictors.PredictorsAsWritten | fancyimpute/MICE.py:134-160 | the predictor set as written: all other columns unless subsampling; without a column of ones `n` distinct columns; with one, `2n - 1` entries; never `col_idx` |
| Predictors.AsWrittenDropsIntercept | fancyimpute/MICE.py:154 | when subsampling next to a column of ones, the code's predictor set omits the column of ones |
| Predictors.AsWrittenRepeatsColumn | fancyimpute/MICE.py:154 | with two or more sampled columns, the code's predictor set repeats its first column |
| Predictors.AsWrittenExample | fancyimpute/MICE.py:134-154 | three data columns, the column of ones and a cap of one: the code fits on one data column alone, the corrected rule adds the ones |
| Predictors.PredictorsCorrected | fancyimpute/MICE.py:134-160 | the intended predictor set: all other columns unless subsampling, else `n` sampled columns plus the column of ones when there is one; distinct and never `col_idx` |
| Predictors.CorrectedKeepsIntercept | fancyimpute/MICE.py:148-154 | the corrected set ends with the column of ones whenever it subsamples next to one |
| Predictors.CorrectedAgreesElsewhere | fancyimpute/MICE.py:142-160 | without subsampling, or without a column of ones, the corrected and written rules coincide |
| Predictors.PredictorColumns | fancyimpute/MICE.py:142-160 | the predictor set under the configured rule never holds `col_idx`, and is every other column when no subsampling happens |
| Pmm.Abs | fancyimpute/MICE.py:175 | `np.abs`: non-negative, equal to the value or its negation |
| Pmm.Distances | fancyimpute/MICE.py:175 | one distance per observed row |
| Pmm.NeighbourCount | fancyimpute/MICE.py:177 | `k = min(n_pmm_neighbors, n_observed - 1)`: at most the setting, below the observed count, equal to one of the two |
| Pmm.Donor | fancyimpute/MICE.py:178-180 | the chosen donor row is among the `k` nearest: fewer than `k` rows are strictly nearer |
| Pmm.NearestHaveFewCloser | fancyimpute/MICE.py:178 | a member of the `k` nearest has fewer than `k` rows strictly nearer |
| Pmm.SingleNeighbourIsNearest | fancyimpute/MICE.py:177-180 | with `k = 1` the donor is a nearest row |
| Pmm.PmmValues | fancyimpute/MICE.py:167-184 | fails with `NoNeighbours` exactly when there are missing rows and `k = 0`; otherwise each missing cell receives the observed value of a row whose prediction is among the `k` nearest to its own |
| Pmm.PmmValuesObserved | fancyimpute/MICE.py:183-184 | every value predictive mean matching writes is an observed value of the column |
| RoundExecutor.BuildDesign | fancyimpute/MICE.py:143-172 | the regression design: one training row and target per observed row, each target observed, one query row per missing row |
| RoundExecutor.DesignIgnoresOwnMissingCells | fancyimpute/MICE.py:142-172 | the design does not depend on the current values of the column's own missing cells |
| RoundExecutor.SubMatrixAgree | fancyimpute/MICE.py:162 | matrices that agree outside column `c` give the same sub-matrix on columns other than `c` |
| RoundExecutor.DrawnPredictions | fancyimpute/MICE.py:169-170 | one drawn prediction per missing row |
| RoundExecutor.BestPredictions | fancyimpute/MICE.py:172-173 | one best prediction per observed row |
| RoundExecutor.NormalDraws | fancyimpute/MICE.py:186-194 | one normal draw per missing row |
| RoundExecutor.DesignFor | fancyimpute/MICE.py:134-172 | the design on the configured predictor set has the observed and missing row counts |
| RoundExecutor.PmmStepValues | fancyimpute/MICE.py:162-184 | fails exactly when there is no other column (`NoPredictors`, the index error at line 162) or `k = 0` (`NoNeighbours`), the first taking precedence; else one value per missing cell, each the observed value of a row whose best prediction is among the `k` nearest to that missing row's drawn prediction, for this update's design |
| RoundExecutor.StepValues | fancyimpute/MICE.py:140-194 | the update fails exactly when `StepFails` (no other column, in any mode; or no neighbour in `pmm` mode), with `StepError`; writes values only in `pmm` and `col` mode, one per missing cell; `pmm` values are observed values and `col` values are the normal draws |
| RoundExecutor.Step | fancyimpute/MICE.py:137-194 | one column update fails exactly when `StepFails`, with `NoPredictors(col_idx)` when there is no other column and `NoNeighbours(col_idx)` otherwise; on success it keeps the shape and changes only missing cells of its own column, and any other `impute_type` changes nothing |
| RoundExecutor.PmmStepObserved | fancyimpute/MICE.py:167-184 | in `pmm` mode every missing cell of the updated column receives an observed value of that column |
| RoundExecutor.PmmStepNearDonor | fancyimpute/MICE.py:167-184 | in `pmm` mode the missing cell in row `i`, the k-th missing cell of the column, receives the observed value of a row among the `k` nearest to the k-th drawn prediction of the design built for this update |
| RoundExecutor.ColStepDraws | fancyimpute/MICE.py:185-194 | in `col` mode, with another column to predict from, the update succeeds and the k-th missing cell receives the k-th normal draw |
| RoundExecutor.Steps | fancyimpute/MICE.py:137-194 | updates applied in place in visit order keep the shape |
| RoundExecutor.ColumnUpdateFramed | fancyimpute/MICE.py:140-194 | the imputer's update changes only missing cells of its own column |
| RoundExecutor.ColumnUpdateFails | fancyimpute/MICE.py:140-180 | the imputer's update fails exactly on the columns `StepFails` names, with `StepError` |
| RoundExecutor.ColumnUpdateDrawsObserved | fancyimpute/MICE.py:167-184 | in `pmm` mode the imputer's update writes observed values |
| RoundExecutor.StepsFailure | fancyimpute/MICE.py:137-194 | the first `n` updates fail exactly when one of them would, with the error of the first failing column in visit order |
| RoundExecutor.StepsFrame | fancyimpute/MICE.py:137-194 | observed cells and columns not yet visited keep their values |
| RoundExecutor.StepsDrawObserved | fancyimpute/MICE.py:167-184 | with observed-value updates, every missing cell of a visited column holds an observed value |
| RoundExecutor.UpdateSeesEarlierWrites | fancyimpute/MICE.py:137-194 | updates are in place: update `k` is applied to the matrix left by update `k - 1`, and it still sees what update `p < k` wrote |
| RoundExecutor.StepsKeepWrite | fancyimpute/MICE.py:137-194 | with every column visited once, after the first `n` updates each cell of the column visited at position `p < n` still holds what update `p` wrote |
| RoundExecutor.Round | fancyimpute/MICE.py:121-195 | a round fails exactly when some visited column cannot be updated, with the error of the first such column in visit order; otherwise it keeps the shape, every observed cell and every unvisited column, and in `pmm` mode leaves an observed value in every missing cell of a visited column |
| RoundExecutor.RoundFailure | fancyimpute/MICE.py:137-194 | a round fails exactly when some visited column `StepFails`, and then with `StepError` of the first such column |
| RoundExecutor.RoundFrame | fancyimpute/MICE.py:137-194 | the frame part of `Round` |
| RoundExecutor.RoundDrawsObserved | fancyimpute/MICE.py:167-184 | the `pmm` part of `Round` |
| RoundExecutor.RoundNearDonor | fancyimpute/MICE.py:137-184 | in `pmm` mode, with every column visited once, each missing cell of the column visited at position `p` ends the round holding the observed value of a row among the `k` nearest to its drawn prediction, for the design built from the matrix the earlier updates left |
| RoundChain.ChainSuccessBefore | fancyimpute/MICE.py:261-268 | a run that survives `k` rounds survived every earlier one |
| RoundChain.ChainFailureSticks | fancyimpute/MICE.py:261-268 | once a round fails, later states are that same error |
| RoundChain.ChainKeeps | fancyimpute/MICE.py:261-268 | rounds that keep observed cells keep them along the whole run |
| RoundChain.ChainFailure | fancyimpute/MICE.py:259-268 | with failure decided by the mask, the run fails exactly when a round runs and rounds fail |
| RoundChain.ChainDrawsObserved | fancyimpute/MICE.py:261-268 | with observed-value rounds, a missing cell keeps holding an observed value |
| RoundChain.Kept | fancyimpute/MICE.py:258-270 | the samples kept: one per round past the burn-in |
| RoundChain.KeptSample | fancyimpute/MICE.py:269-270 | sample `s` is `X_filled[missing_mask]` after round `n_burn_in + s + 1`, one value per missing cell |
| RoundChain.History | fancyimpute/MICE.py:261-270 | the values one cell holds after each kept round, one per kept round |
| RoundChain.HistoryAt | fancyimpute/MICE.py:261-270 | entry `s` of a cell's history is its value after round `n_burn_in + s + 1` |
| RoundChain.KeptLengths | fancyimpute/MICE.py:270 | every sample has one value per missing cell |
| RoundChain.KeptCell | fancyimpute/MICE.py:270 | sample `s` holds each missing cell at its row-major rank, with its value after round `n_burn_in + s + 1` |
| RoundChain.KeptColumn | fancyimpute/MICE.py:270-280 | one flat position across the samples is the history of the cell stored there |
| RoundChain.KeptGrows | fancyimpute/MICE.py:269-270 | one more kept round appends its sample at the end |
| RoundChain.RunRounds | fancyimpute/MICE.py:257-270 | the loop fails exactly when the run does, with its error, and otherwise returns exactly the kept samples |
| Averaging.Column | fancyimpute/MICE.py:280 | one entry per sample |
| Averaging.CellMeans | fancyimpute/MICE.py:280 | one mean per position |
| Averaging.SumBetween | fancyimpute/MICE.py:280 | a sum of bounded values is bounded by the count times the bounds |
| Averaging.MeanBetween | fancyimpute/MICE.py:280 | the mean of values within bounds lies within them |
| Driver.WorkShape | fancyimpute/MICE.py:240-250 | after appending the column of ones, matrix and mask share one shape; every visited column still has an observed cell; the mask agrees with `np.isnan` on the input columns |
| Driver.Start | fancyimpute/MICE.py:252-255 | initialisation of the working matrix keeps its shape |
| Driver.ImputerRoundKeeps | fancyimpute/MICE.py:265-268 | the imputer's round keeps the shape and every observed cell |
| Driver.ImputerRoundFails | fancyimpute/MICE.py:265-268 | the imputer's round fails exactly when some visited column cannot be updated (a one-column input without the ones, or no neighbour), with the first such column's error |
| Driver.OneColumnFails | fancyimpute/MICE.py:142-162 | a one-column input without the column of ones and with a missing cell fails every round, and the only error it can report is `NoPredictors(0)` |
| Driver.ImputerRoundDrawsObserved | fancyimpute/MICE.py:265-268 | in `pmm` mode the imputer's round writes observed values into every input column |
| Driver.StateFailure | fancyimpute/MICE.py:252-268 | the state after `k` rounds is an error exactly when `k > 0` and some visited column cannot be updated, with the first such column's error |
| Driver.StateKeeps | fancyimpute/MICE.py:252-268 | every reached state has the working shape and the working matrix's observed cells |
| Driver.StateSuccessBefore | fancyimpute/MICE.py:261-268 | a run that reaches round `k` reached every earlier round |
| Driver.StateFrame | fancyimpute/MICE.py:244-268 | every observed input cell keeps its input value and the column of ones stays all ones |
| Driver.ObservedInInput | fancyimpute/MICE.py:241-246 | a value observed in an input column of the working matrix is held by an observed input cell |
| Driver.PmmDrawsObserved | fancyimpute/MICE.py:252-268 | in `pmm` mode every missing cell holds, after every round, a value observed in its input column |
| Driver.Samples | fancyimpute/MICE.py:257-270 | `n_imputations` samples, each with one value per missing cell of the input |
| Driver.WorkTotal | fancyimpute/MICE.py:247-250 | the column of ones adds no missing cell |
| Driver.RunImputer | fancyimpute/MICE.py:257-270 | for a visit order, the rounds fail exactly when a round runs and some visited column cannot be updated, with the first such column's error; otherwise they yield the kept samples |
| Driver.StrippedMask | fancyimpute/MICE.py:271-273 | the stripped mask is the input's own mask |
| Driver.MultipleImputations | fancyimpute/MICE.py:231-274 | an unknown policy fails with `InvalidVisitOrder`; otherwise failure iff a round runs and some visited column cannot be updated (including the one-column input without the ones), with the first such column's error; on success `n_imputations` samples of one value per missing cell, and the input's own mask |
| Driver.CellHistory | fancyimpute/MICE.py:261-270 | a cell's value after each kept round, one per kept round |
| Driver.HistoryStep | fancyimpute/MICE.py:261-270 | entry `s` of a cell's history is its value after round `n_burn_in + s + 1` |
| Driver.HistoryInSamples | fancyimpute/MICE.py:270-281 | reading each sample at a missing cell's flat position gives that cell's history |
| Driver.FillMeans | fancyimpute/MICE.py:277-281 | observed cells kept; each missing cell receives the mean of the samples at its flat position |
| Driver.Complete | fancyimpute/MICE.py:276-282 | fails exactly as `multiple_imputations`; otherwise same shape, observed cells unchanged, each missing cell the mean of the values it held after each kept round |
| Driver.PmmMeanWithinObserved | fancyimpute/MICE.py:276-282 | in `pmm` mode a completed cell lies within any bounds that hold for all observed values of its column |

## Left out

- Regression (`BayesianRidgeRegression` fit, `predict`, `predict_dist`): floating-point linear algebra in `bayesian_ridge_regression.py`, which is not part of this model. It is the caller-supplied `Regressor`, answering one row at a time.
- The normal draw `np.random.normal(mus, np.sqrt(sigmas_squared))`: floating-point sampling, supplied by the `normal` oracle.
- `np.corrcoef` and the correlation-weighted `np.random.choice` for predictor subsetting: floating-point correlation and weighted sampling. The choice is an oracle ranking of the candidates; the sampled set has the right size and comes from the right candidates, but the weights are not modelled.
- Predictors.Sample: never fails. In the source the subsetting draw fails, or draws from NaN weights, in cases that depend on the correlations, which are not modelled: `np.random.choice(..., replace=False, p=p)` (fancyimpute/MICE.py:150-153, 157-160) raises whenever fewer than `n_nearest_columns` weights are positive, not only when all are zero; all-zero weights become 0/0 (NaN) at lines 149 and 156; and a constant data column makes `np.corrcoef` at line 135 give NaN correlations. The regression (`Regressor`) never fails either. So every "fails exactly when `StepFails`" statement (`RoundExecutor.StepValues`, `RoundExecutor.Step`, `RoundExecutor.Round`, `RoundExecutor.RoundFailure`, `Driver.MultipleImputations`, `Driver.Complete` and the lemmas between them) holds relative to these two omissions. The update failures modelled are `NoPredictors` (no other column: `other_cols` at line 142 is an empty float array, which the indexing at line 162 refuses) and `NoNeighbours` (line 180).
- The unweighted `np.random.choice` calls (initial draws at fancyimpute/MICE.py:207-209, donor choice at line 180): oracles indexed by step or by round and step, reduced modulo the number of choices. The weighted subsetting draw is an oracle ranking of the candidates instead (see above).
- Pmm.Donor: the `k` nearest rows of `np.argpartition(D, k, 1)[:, :k]` (line 178) are taken in one fixed tie order, the prefix of a stable sort, where numpy leaves the order among tied distances unspecified; the contract (`AmongNearest`) holds for any tie order.
- VisitOrder.VisitIndices: ties among equal missing counts are broken by one fixed (stable) order; numpy's default `argsort` is not stable, so the source leaves tie order unspecified. The contract states only the ordering by count, which holds for any tie order.
- `_check_input` and `_check_missing_value_mask` of `Solver` (`solver.py` is not part of this model): they become the precondition `Validated`, a rectangular matrix none of whose columns is entirely missing.
- Verbose printing (fancyimpute/MICE.py:262-264): output only.
- Numeric accuracy of the averaging in `complete`: the model uses exact reals and requires `n_imputations > 0`, where numpy would return NaN means.
- RoundExecutor.ColumnUpdate: a matrix of another shape, or a column without an observed cell, is returned unchanged; the driver never produces either.

## Findings

| source | as written | input that shows it | evidently intended | confidence | as-written member | corrected member |
|---|---|---|---|---|---|---|
| fancyimpute/MICE.py:154 | `np.append(other_cols, other_cols[:-1])` appends the sample minus its last entry, so the column of ones is dropped from the predictors and, with two or more sampled columns, a column is repeated | `add_ones=True`, three data columns plus the column of ones, `n_nearest_columns=1`, updating column 0: the predictors are one data column and no column of ones | append the column of ones (`other_cols[-1]` before sampling), so that the fit keeps its intercept and the sampled columns stay distinct | not executed | Predictors.PredictorsAsWritten, Predictors.AsWrittenExample, Predictors.AsWrittenDropsIntercept | Predictors.PredictorsCorrected, Predictors.CorrectedKeepsIntercept |
