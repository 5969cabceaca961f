# Bayesian-network model selection, prediction and error: a Dafny model

This project models the core of `source_code/bayesian.py`, the script that learns a
discrete Bayesian network for a trading signal. The core has three parts:

- **Model selection** (`find_best_model`). The script walks a grid of hill-climbing
  iteration budgets (outer loop) and named scoring methods (inner loop, in dictionary
  insertion order). For each cell it estimates a structure and re-scores it. A best-so-far
  accumulator of four values (model, method, score, budget) starts at score `-inf`. It is
  replaced, all four values at once, only on a strictly greater score.
- **Prediction** (`predict_value`). The query table loses every column that is not a node
  of the fitted network, and also the target column `"forecast"`. The network's inference
  then completes the target. Any failure on the way is caught and yields no value.
- **Error evaluation** (`calculate_error`). The error is the fraction of positions `i`
  where `actual[i] != pred[(i - 1) mod n]`, which is `np.roll(pred, 1)` compared with the
  truth.

The module `ModelSelection` (model_selection.dfy) holds the imperative loop
`FindBestModel`. It is proved against the fold `Select` over the cell sequence `Grid`, and
lemmas about `Select` and `Grid` state the argmax, the first-found tie-breaking and the
visiting order. The modules `Prediction` (prediction.dfy) and `ErrorMetric`
(error_metric.dfy) are pure functions with lemmas. `Optional` (optional.dfy) holds the
`Option` datatype that stands for Python's `None`.

The library calls are parameters of the model:

- `HillClimbSearch(train_data).estimate` and `scoring_method.score` form the datatype
  `ModelSelection.Search`: two deterministic functions of (method, budget) and
  (method, model).
- `model_struct.nodes()` and `model_struct.predict` form `Prediction.Network`: a node set
  and an inference function that may fail (`None`) or return the predicted columns by name.

Three error paths of the code shape the model:

- `"forecast"` is always in the drop list of `states.drop(columns=...)`, and pandas raises
  `KeyError` when the query has no such column. The `except` clause then returns `None`,
  and so does `Prediction.PredictValue`.
- `prediction['forecast']` also raises when inference does not return the target. That
  case yields `None` as well.
- `np.mean` of an empty array is NaN, not an exception, so `ErrorMetric.CalculateError`
  returns `NaN` for empty input.

## Model

| member | source | states |
|---|---|---|
| `ModelSelection.FindBestModel` | source_code/bayesian.py:23-47 | The nested loops return exactly the fold `Select` of the grid. An empty grid (no budgets or no methods) returns (None, None, -inf, None). Otherwise all four results come from one cell: the first cell that has the maximum score. |
| `ModelSelection.Exceeds` | source_code/bayesian.py:41 | `score > best_score`: every score beats the initial `-inf`, and a finite best is not replaced by a score that only ties it or is lower. |
| `ModelSelection.Select` | source_code/bayesian.py:24-45 | The accumulator after the visited cells is empty exactly when no cell was visited. |
| `ModelSelection.Returned` | source_code/bayesian.py:47 | The returned score is the accumulator's score (`-inf` when empty). Model, method and budget are all present or all absent together, and when present they are the fields of the one accumulated cell. |
| `ModelSelection.GridOrder` | source_code/bayesian.py:32-36 | Exactly `|max_iters| * |scoring_methods|` cells are scored, budgets outer and methods inner. Cell `i * |methods| + j` holds four values: the structure estimated for budget `i` with method `j`, that same structure's score under method `j`, method `j`'s name, and budget `i`. |
| `ModelSelection.GridMembers` | source_code/bayesian.py:32-36 | A cell is visited exactly when it is the evaluation of some listed budget with some listed method. |
| `ModelSelection.ScriptGrid` | source_code/bayesian.py:115-122 | The script's call with budgets [5, 10] and BicScore, BDeuScore, BDsScore visits six cells: the three methods at 5, then the three at 10. |
| `ModelSelection.SelectFindsFirstMax` | source_code/bayesian.py:24-45 | Starting from -inf, the accumulator is empty exactly when no cell was visited. Otherwise it holds a visited cell whose score is at least every visited score, and every earlier cell scores strictly lower. |
| `ModelSelection.SelectIsFirstMax` | source_code/bayesian.py:41-45 | Conversely, if a cell is the first index of the maximum score, that is the cell selected. |
| `ModelSelection.TieKeepsEarlier` | source_code/bayesian.py:41 | A later cell whose score equals the current best does not replace it (strict `>`). |
| `ModelSelection.SelectScoreIgnoresOrder` | source_code/bayesian.py:41-45 | The best score depends only on which cells were visited, not on their order. |
| `ModelSelection.ReorderedGridSameBestScore` | source_code/bayesian.py:32-45 | Reordering the budgets or the scoring methods does not change the returned best score. |
| `Prediction.NamesMembers` | source_code/bayesian.py:62 | `set(states.columns)` holds every column's name and nothing else. |
| `Prediction.DroppedLabels` | source_code/bayesian.py:63-65 | The drop list always holds `"forecast"`. When the query has a `"forecast"` column, every label is a query column. What is left of the query's names is its names intersected with the nodes, minus `"forecast"`. |
| `Prediction.Without` | source_code/bayesian.py:65 | Dropping a set of labels keeps exactly the columns whose names are not among them. The kept columns are unchanged, and their names are the old names minus the labels. With nothing to drop the table is unchanged. |
| `Prediction.WithoutOne` | source_code/bayesian.py:65 | A single column is dropped exactly when its name is a label, and is otherwise kept unchanged. |
| `Prediction.WithoutAppend` | source_code/bayesian.py:65 | Dropping works column by column: on two tables side by side it gives the two results side by side. With `WithoutOne` this fixes the result completely, including the order of the kept columns and how many times each appears. |
| `Prediction.DropColumns` | source_code/bayesian.py:65 | `drop` fails exactly when some label is not a column of the table. Otherwise the columns left are exactly the table's own columns, values unchanged, whose names are not labels, and the names left are the old names minus the labels. |
| `Prediction.InferenceColumns` | source_code/bayesian.py:61-65 | The reconciliation fails exactly when the query has no `"forecast"` column. Otherwise the inference input holds exactly the query columns that are model nodes other than `"forecast"`, by name (query columns intersected with nodes, minus `{"forecast"}`) and column by column. |
| `Prediction.PredictValue` | source_code/bayesian.py:60-77 | A value is returned exactly when the query has a `"forecast"` column, inference on the reduced input succeeds, and inference returns the target; every other path yields None. The reduced input is free of `"forecast"` and within the model's nodes, and the value is the target's predicted column. |
| `Prediction.PredictionIgnoresTargetValues` | source_code/bayesian.py:61-71 | Changing the values of the query's `"forecast"` column never changes the prediction. |
| `ErrorMetric.Prev` | source_code/bayesian.py:91 | `(i - 1) mod n` is a position, `n - 1` for position 0 and `i - 1` otherwise. |
| `ErrorMetric.Roll` | source_code/bayesian.py:91 | `np.roll(s, 1)` keeps the length and puts `s[(i - 1) mod n]` at position `i`. |
| `ErrorMetric.RollRotateLeftInverse` | source_code/bayesian.py:91 | `np.roll` by one and rotation left by one are inverse to each other in both orders. |
| `ErrorMetric.Mismatches` | source_code/bayesian.py:91 | The elementwise-`!=` count is the size of the set of differing positions. It is at most the length, zero exactly when the sequences are equal, and equal to the length exactly when every position differs. |
| `ErrorMetric.CalculateError` | source_code/bayesian.py:79-98 | NaN exactly for empty input. Otherwise a fraction in [0, 1]. |
| `ErrorMetric.ErrorIsShiftedMismatchFraction` | source_code/bayesian.py:91 | For non-empty input, the error is the number of `i` in `[0, n)` with `actual[i] != pred[(i - 1) mod n]`, divided by `n`. |
| `ErrorMetric.ZeroErrorIffRotatedLeft` | source_code/bayesian.py:91 | The error is 0 exactly when `pred` is `actual` rotated left by one place. |
| `ErrorMetric.FullErrorIffAllMismatch` | source_code/bayesian.py:91 | The error is 1 exactly when every position differs from its shifted prediction. |
| `ErrorMetric.SingletonSelfComparison` | source_code/bayesian.py:91 | A length-1 prediction equal to the truth is compared with itself and has error 0. |

## Left out

- Structure search, scoring, parameter fitting, inference and the Markov blanket (`HillClimbSearch.estimate`, `BicScore`/`BDeuScore`/`BDsScore.score`, `BayesianNetwork.fit`/`predict`, `get_markov_blanket`) are library calls. They are function-valued parameters, and their internals are not modelled.
- Acyclicity of the learned structure is guaranteed by the library and not checked by the script, so the structure is an opaque type.
- `ModelSelection.FindBestModel` treats the search and the scorer as total. An exception from them would abort the whole grid in the script; that path is not modelled.
- Scores are exact reals, not IEEE floats. A NaN score, for which every `>` is false, is not modelled.
- `ModelSelection.FindBestModel` cannot represent a score of `+inf` or `-inf`. When every cell scores `-inf`, the script returns `(None, None, -inf, None)` even for a non-empty grid, while the model returns a cell.
- `ErrorMetric.CalculateError` requires equal lengths. The script's behaviour on unequal lengths depends on numpy's broadcasting rules and version (a broadcast against a length-1 array, a caught `ValueError`, or a scalar comparison), so it is not modelled.
- `ErrorMetric.CalculateError` does not model the `None` that a failed `predict_value` hands to it in the script. numpy would compare every actual value with a zero-dimensional `None` array.
- Floating-point rounding in `np.mean` is not modelled. The error is an exact real ratio.
- CSV loading, directory creation, pickle persistence and argument parsing are I/O and are not modelled.
- Plotting with matplotlib and networkx is output only and is not modelled.
- `print` and `logging` calls are observability only and are not modelled.
