# Pareto filter of the MVMOO mixed-variable multi-objective optimiser

MVMOO proposes the next experiment of a multi-objective Bayesian
optimisation by maximising an expected-improvement criterion measured
against the current Pareto front of the scaled observations. This project
models the part of `MVMOO/multi_mixed_optimiser.py` that builds that front,
and the small selection of the best discrete assignment used by the
adaptive optimiser:

- `is_pareto_efficient(costs, return_mask)` takes an n-by-m cost matrix and
  selects the rows that are efficient for a minimisation problem. It keeps a
  working index list and a working cost matrix, and shrinks both by the same
  boolean mask. Each surviving row becomes the pivot in turn. A pivot drops
  every other row that has no coordinate strictly below its own; rows equal
  to the pivot are dropped too. The result is either a mask over all n rows
  or the increasing list of kept row indices.
- `paretofront(Y)` returns the kept rows of `Y`, in row order. The
  optimiser stores this as its `currentfront`.
- In the SHGO and DE paths of `AEIMmixedoptimiser`, after the continuous
  solver has run once per sampled discrete assignment, the code picks the
  first run whose value equals the smallest solver value. It returns that value and
  that run's point followed by its discrete assignment.

Modules:

- `Masking` (`masking.dfy`): NumPy boolean-mask selection `a[mask]` and
  `np.sum` over a mask. It proves that selection keeps order and keeps two
  aligned sequences aligned.
- `Dominance` (`dominance.dfy`): componentwise comparison of rows, and the
  declarative rule for which rows the filter keeps. Row `j` *covers* row `i`
  when `j` is componentwise no worse than `i`, and either strictly better
  somewhere or an earlier copy of the same values. A row is *kept* when no
  row covers it. The module proves the properties of the kept set.
- `ParetoFilter` (`pareto.dfy`): the filtering loop as a method, proved
  against the kept set. It also holds `paretofront` and the lemmas about
  the front.
- `DiscreteSelection` (`selection.dfy`): the first-minimum selection.

Costs are `real`. The filter only compares values, so no rounding is
involved. Two consequences of the code are worth stating:

- Equal rows are not both kept. The code compares with a strict `<` and
  forces only the pivot's own mask entry, so a pivot drops its later
  copies and only the first of identical rows survives
  (`Dominance.LaterCopyDropped`, `ParetoFilter.RepeatedRowKeptOnce`).
- For `[[1,2],[2,1],[1.5,1.5],[3,3],[0.5,0.5]]` the code keeps only row 4,
  because row 4 is componentwise below every other row
  (`ParetoFilter.FrontOfFiveRows`).

## Model

| member | source | states |
|---|---|---|
| `ParetoFilter.IsParetoEfficient` | MVMOO/multi_mixed_optimiser.py:39-62 | With `returnMask` the result is a mask of exactly `n` entries that is true exactly at the kept rows. Otherwise it is a strictly increasing list of indices whose members are exactly the kept rows. |
| `ParetoFilter.MarkRows` | MVMOO/multi_mixed_optimiser.py:57-59 | The zeroed mask, after the listed rows are set, has length `n` and is true exactly at the listed rows. |
| `ParetoFilter.PivotStep` | MVMOO/multi_mixed_optimiser.py:51-56 | One pivot step keeps the loop invariant: the index list stays increasing and aligned with the working matrix; no survivor is at or above a row that has been a pivot; every dropped row is covered by a survivor. The step also strictly decreases `len(costs) - next_point_index`. |
| `ParetoFilter.PivotStepShape` | MVMOO/multi_mixed_optimiser.py:54-56 | After filtering, the pivot sits at position `sum(mask[:next])`, preceded by the surviving rows that were before it. So `next_point_index` moves to the row just after the old pivot, and the measure drops even when rows before the pivot were removed. |
| `ParetoFilter.PivotStepPivots` | MVMOO/multi_mixed_optimiser.py:52-56 | After a step, the rows that have been pivots are the first `sum(mask[:next]) + 1` survivors, and every other survivor has some coordinate strictly below each of them. |
| `ParetoFilter.PivotStepPivot` | MVMOO/multi_mixed_optimiser.py:52-53 | A survivor of the mask other than the pivot has a coordinate strictly below the pivot's. |
| `ParetoFilter.PivotStepCovered` | MVMOO/multi_mixed_optimiser.py:52-55 | After a step, every row dropped so far is covered by some surviving row. |
| `ParetoFilter.DroppedCoveredByPivot` | MVMOO/multi_mixed_optimiser.py:52-55 | A row the pivot drops is covered by the pivot. This includes an equal copy, which is always after the pivot. |
| `ParetoFilter.LoopDone` | MVMOO/multi_mixed_optimiser.py:51-62 | When the pivot index passes the end, the working index list is exactly the increasing list of kept rows. |
| `ParetoFilter.ParetoFront` | MVMOO/multi_mixed_optimiser.py:64-69 | The front has one row per kept row. Each front row is a kept row of `Y`, and each kept row of `Y` appears in the front. |
| `ParetoFilter.FrontInRowOrder` | MVMOO/multi_mixed_optimiser.py:68-69 | Every front row `t` is row `idx[t]` of `Y`, unchanged, and later front rows come from later rows of `Y`. |
| `ParetoFilter.FrontMutuallyNonDominating` | MVMOO/multi_mixed_optimiser.py:51-56 | Any two distinct front rows are mutually non-dominating: each has a coordinate strictly below the other's. |
| `ParetoFilter.FrontWeaklyDominatesAll` | MVMOO/multi_mixed_optimiser.py:52-55 | Every row of `Y` is componentwise at or above some row of the front. |
| `ParetoFilter.FrontIdempotent` | MVMOO/multi_mixed_optimiser.py:39-69 | Filtering the front again keeps every row of it, and its front is itself. |
| `ParetoFilter.FrontOfFiveRows` | MVMOO/multi_mixed_optimiser.py:39-62 | For `[[1,2],[2,1],[1.5,1.5],[3,3],[0.5,0.5]]` the kept indices are exactly `[4]`. |
| `ParetoFilter.RepeatedRowKeptOnce` | MVMOO/multi_mixed_optimiser.py:52-53 | For `[[1,2],[1,2],[2,1]]` the kept indices are `[0, 2]`: the later copy is dropped. |
| `Dominance.EfficientIndices` | MVMOO/multi_mixed_optimiser.py:61-62 | The index-mode result as a function: strictly increasing, and its members are exactly the kept rows. |
| `Dominance.KeptIsFirstParetoMinimal` | MVMOO/multi_mixed_optimiser.py:40-46 | A row is kept exactly when it is Pareto-minimal (no row is componentwise no worse and different) and no earlier row holds the same values. |
| `Dominance.KeptMutuallyNonDominating` | MVMOO/multi_mixed_optimiser.py:51-56 | Two distinct kept rows each have a coordinate strictly below the other's. |
| `Dominance.LaterCopyDropped` | MVMOO/multi_mixed_optimiser.py:52-53 | A later copy of any earlier row is never kept. |
| `Dominance.FirstCopyKeptIffMinimal` | MVMOO/multi_mixed_optimiser.py:52-53 | The first of identical rows is kept exactly when the shared values are Pareto-minimal. |
| `Dominance.ExcludedIsCovered` | MVMOO/multi_mixed_optimiser.py:52-55 | Every row that is not kept is covered by a kept row, so it is componentwise at or above some kept row. |
| `Dominance.NotAnyBelowIsLeq` | MVMOO/multi_mixed_optimiser.py:52 | For rows of equal width, `not np.any(x < y)` holds exactly when `y <= x` componentwise. |
| `Dominance.CoversTransitive` | MVMOO/multi_mixed_optimiser.py:52-55 | Covering is transitive. So a row dropped by a pivot that is later dropped itself stays covered by a survivor. |
| `Masking.Select` | MVMOO/multi_mixed_optimiser.py:54-55 | `a[mask]` has one element per true mask entry. |
| `Masking.SelectMembers` | MVMOO/multi_mixed_optimiser.py:54-55 | Every element of `a[mask]` comes from a true position of the mask, and every true position is selected. |
| `Masking.SelectSplit` | MVMOO/multi_mixed_optimiser.py:54-56 | `a[mask]` is the selection from the rows before position `k` followed by the selection from the rest, which is how `sum(mask[:next])` locates the pivot. |
| `Masking.SelectAligned` | MVMOO/multi_mixed_optimiser.py:54-55 | Filtering `is_efficient` and `costs` by the same mask keeps `costs[t]` equal to the original row `is_efficient[t]`. |
| `Masking.SelectIncreasing` | MVMOO/multi_mixed_optimiser.py:48-54 | Filtering keeps the index list strictly increasing, starting from `np.arange`. |
| `DiscreteSelection.Min` | MVMOO/multi_mixed_optimiser.py:471 | The minimum of the solver values is an element of the list and is at most every element. |
| `DiscreteSelection.IndexOf` | MVMOO/multi_mixed_optimiser.py:469 | `list.index(v)` is a position holding `v` with no earlier position holding `v`. |
| `DiscreteSelection.FirstMinIndex` | MVMOO/multi_mixed_optimiser.py:469 | The chosen index holds a minimal value, and every earlier value is strictly larger. |
| `DiscreteSelection.FirstMinIndexUnique` | MVMOO/multi_mixed_optimiser.py:469 | Only one index holds a minimal value with all earlier values strictly larger. |
| `DiscreteSelection.BestAssignment` | MVMOO/multi_mixed_optimiser.py:469-471 | With no runs there is no result, because `min` of an empty list raises. Otherwise the value is the minimum of the solver values, attained first at index `ind`, and the point is that run's continuous point followed by its discrete assignment `qual[ind]`. |

## Left out

- The expected-improvement family (`EIM`, `CEIM_Hypervolume`, `AEIM_Hypervolume`, `AEIM_Euclidean`) is left out. It is Gaussian floating-point arithmetic (`norm.cdf`, `norm.pdf`, square roots, division by a possibly zero deviation).
- The optimiser drivers (`EIMoptimiserWrapper`, `AEIMoptimiserWrapper`, `EIMmixedoptimiser`, `AEIMmixedoptimiser`) are left out, apart from the first-minimum selection. They wrap SciPy's `minimize`, `shgo`, `differential_evolution` and `dual_annealing`, plus `sample_design`, none of which is part of this model. The identical selection at lines 501-503 is covered by `DiscreteSelection.BestAssignment`.
- `generatemodels` and `multinextcondition` are left out. They fit Gaussian-process models through the parent `MVO` class, which is not part of this model, and retry on exceptions.
- The contextual offset of the adaptive optimiser is left out. It divides the mean posterior variance by the front values in floating point.
- Console output (`print`) is left out.
- Costs are modelled as exact reals. NaN entries are not modelled: with NaN, every `<` comparison is false and the filter behaves differently.
- `ParetoFilter.IsParetoEfficient` requires all rows to have one width. The source receives a two-dimensional NumPy array, so a ragged matrix cannot occur there.
- `ParetoFilter.IsParetoEfficient` returns the mask as a sequence, not as a NumPy array object.
- `ParetoFilter.ParetoFront` is stated over the kept-row function (`Dominance.EfficientIndices`) rather than by calling the method, because a function cannot call a method. `ParetoFilter.IsParetoEfficient` proves that the method's index result equals that function.
- `DiscreteSelection.BestAssignment` takes the solver results as inputs. The solver runs that produce them are not modelled.
- `DiscreteSelection.BestAssignment` models solver values as exact reals, so NaN results are not modelled. With a NaN among them, Python's `min` and `list.index` depend on its position in the list.
