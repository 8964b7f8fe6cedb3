# IQR outlier handling of the SepalSense data-processing stage

This project models, in Dafny, the outlier-handling step of the iris
data-processing stage (`DataProcessing.handle_outliers` in
`src/data_processing.py`). The step takes one numeric column of the loaded
table and computes the first and third quartiles Q1 and Q3 with linear
interpolation between ranked observations. From them it derives Tukey's
fences, Q1 - 1.5·IQR and Q3 + 1.5·IQR. Every value strictly outside the
fences is overwritten with the column median. All other values, all other
columns and the row order are left alone.

The model is functional. A column is a `seq<real>`, and a table is a map from
column names to numeric or text columns.

- `sorting.dfy` (`Sorting`) ranks a column. `Sort` is an insertion sort whose
  contract says the result is ascending and a permutation of its input. A
  ranked permutation is unique, so nothing depends on the choice of algorithm.
- `quantiles.dfy` (`Quantiles`) holds the quantile at level p. The position
  (n-1)·p on the ranked column is split into a whole rank and a fraction
  (`RankOf`). The value is interpolated between that rank and the next
  (`ValueAt`), which is definition 7 of Hyndman and Fan and pandas'
  default. The median is defined the way the median itself is computed: the
  middle value, or the mean of the two middle values. It is then proved
  equal to the quantile at 0.5.
- `outliers.dfy` (`Outliers`) holds the fences, the masked assignment
  (source line 39), `ReplaceOutliers`, which flags the rows outside the
  fences (line 38) and assigns to them, and `Sanitize`, the whole per-column
  step.
- `frame.dfy` (`Frames`) holds `HandleOutliers`, the step applied to the
  table held by the processing object, with its failure causes.
- `scenarios.dfy` (`Scenarios`) works two concrete columns through the rule.

Outlier handling is not idempotent: the quartiles are recomputed on the
already-handled column and can move.
`Scenarios.NotIdempotent` proves this on the column [0, 0, 0, 3, 100]. The
first pass gives [0, 0, 0, 3, 0]. The second pass sees Q1 = Q3 = 0, so the
value 3 is now an outlier and becomes 0. The model follows the code.

For an empty column pandas returns NaN quartiles and a NaN median, whatever
the column's type. Every comparison with NaN is false, so nothing is flagged. The model
states the same outcome directly: `Sanitize([])` is `[]`, and no quartiles
are computed for it. At the table level a text column without rows is
therefore handled without error and left as it is, while a text column with
rows fails.

## Model

| member | source | states |
|---|---|---|
| Sorting.Sort | src/data_processing.py:29-30 | ranking a column gives an ascending sequence with exactly the same values and multiplicities |
| Sorting.SortedPermutationUnique | src/data_processing.py:29-30 | two ascending sequences with the same multiset of values are equal, so the ranked column is the same whichever sort produced it |
| Sorting.SortPermutationInvariant | src/data_processing.py:29-30 | reordering the rows of a column does not change its ranking |
| Sorting.SortEnds | src/data_processing.py:29-30 | the ranked column starts at the column minimum and ends at its maximum |
| Quantiles.RankOf | src/data_processing.py:29-30 | the position (n-1)·p splits into a whole rank below n and a fraction in [0, 1) that add up to it |
| Quantiles.RankMonotone | src/data_processing.py:29-35 | a higher level never gives an earlier rank position |
| Quantiles.ValueAt | src/data_processing.py:29-30 | the value interpolated at a rank position of a ranked column lies between its first and last observations |
| Quantiles.ValueAtMonotone | src/data_processing.py:29-35 | on a ranked column, a later rank position never has a smaller interpolated value |
| Quantiles.SortedQuantile | src/data_processing.py:29-30 | the linearly interpolated quantile of a ranked column lies between its first and last observations |
| Quantiles.Quantile | src/data_processing.py:29-30 | the quantile at any level in [0, 1] lies within [min, max] of the column |
| Quantiles.SortedQuantileMonotone | src/data_processing.py:29-35 | on a ranked column, a higher level never gives a smaller quantile |
| Quantiles.QuantileMonotone | src/data_processing.py:29-35 | the quantile is monotone in its level, so Q1 <= median <= Q3 |
| Quantiles.SortedMedian | src/data_processing.py:35 | the middle value, or the mean of the two middle values, of a ranked column lies within the column's range |
| Quantiles.Median | src/data_processing.py:35 | the column median lies within [min, max] of the column |
| Quantiles.MedianIsHalfQuantile | src/data_processing.py:35 | the median equals the interpolated quantile at level 0.5 |
| Quantiles.QuantileOrderFree | src/data_processing.py:29-35 | quartiles and median depend only on the multiset of values, not on row order |
| Quantiles.QuantileOfConstant | src/data_processing.py:29-35 | every quantile and the median of a constant column equal the constant |
| Outliers.IqrFences | src/data_processing.py:29-35 | lower fence <= Q1 <= median <= Q3 <= upper fence, the fences are equally far outside the quartiles, and both quartiles lie within the column's range |
| Outliers.AssignWhere | src/data_processing.py:39 | flagged rows receive the new value, unflagged rows keep theirs, and the length is unchanged |
| Outliers.ReplaceOutliers | src/data_processing.py:37-39 | for given fences and replacement value: every outlier becomes the replacement, every other row is kept exactly, and when the replacement lies within the fences no outlier remains |
| Outliers.Sanitize | src/data_processing.py:26-39 | same length; every outlier becomes the original median; every value on or inside the fences is kept exactly; afterwards every row lies within the fences of the original column; an empty column is returned as it is |
| Outliers.ConstantColumnUnchanged | src/data_processing.py:29-39 | a constant column, including a one-row column, is returned unchanged |
| Outliers.SanitizeRowOrderFree | src/data_processing.py:29-39 | a row's outcome depends only on its value and the column's multiset of values, so reordering rows reorders the result the same way |
| Scenarios.SkewedStatistics | src/data_processing.py:29-35 | for [1, 2, 3, 4, 5, 100]: Q1 = 2.25, Q3 = 4.75, median 3.5 |
| Scenarios.SkewedSanitized | src/data_processing.py:29-39 | for [1, 2, 3, 4, 5, 100]: fences [-1.5, 8.5], and the result is [1, 2, 3, 4, 5, 3.5] |
| Scenarios.SpikedStatistics | src/data_processing.py:29-35 | for [0, 0, 0, 3, 100]: Q1 = 0, Q3 = 3, median 0 |
| Scenarios.SpikedSanitized | src/data_processing.py:29-39 | for [0, 0, 0, 3, 100]: fences [-4.5, 7.5], and the result is [0, 0, 0, 3, 0] |
| Scenarios.OnceSanitizedStatistics | src/data_processing.py:29-35 | for [0, 0, 0, 3, 0]: Q1 = Q3 = 0 and median 0 |
| Scenarios.OnceSanitizedSanitizedAgain | src/data_processing.py:29-39 | for [0, 0, 0, 3, 0]: the fences collapse to [0, 0], and the result is all zeros |
| Scenarios.NotIdempotent | src/data_processing.py:29-39 | a second pass of outlier handling can change the result of the first |
| Frames.HandleOutliers | src/data_processing.py:26-44 | succeeds exactly when a table is loaded and the column exists and is numeric or has no rows; on success only the named column changes, a numeric one to its sanitized version, an empty text one not at all, and the column names stay the same; every failure names the column and its cause (no table, missing column, non-numeric column) |
| Frames.HandleOutliersKeepsRows | src/data_processing.py:39 | after outlier handling every column still has the same number of rows |

## Left out

- Loading the CSV file with `pd.read_csv` (src/data_processing.py:18-24): file I/O and a foreign parser. The loaded table is a parameter of `Frames.HandleOutliers`, and `None` stands for "not loaded yet".
- The train/test split (src/data_processing.py:46-63): `train_test_split`'s seeded shuffle and test-size rounding live in scikit-learn, which is not part of this model. Selecting the four feature columns and the label column is plain table indexing.
- Persisting the four splits with `joblib.dump`, and creating the output directory with `os.makedirs` (src/data_processing.py:16, 55-58): filesystem side effects.
- Logging, and the exact message text of `CustomException` (src/data_processing.py:6-9, 21-24, 40-44). Failures are modelled as one error kind carrying the column name and a cause.
- `run` (src/data_processing.py:65-68) only calls the three stages in order, with the fixed column `SepalWidthCm`.
- Floating point: values are `real`, so there is no rounding and there is no NaN. pandas skips NaN when computing quantiles and the median. A NaN row also compares false against both fences, so it is never replaced. Neither behaviour is modelled.
- Quantile levels outside [0, 1] are excluded by a precondition. pandas rejects them with an error, and the code only uses 0.25, 0.5 and 0.75.
- Columns holding integers: pandas may change the column's type when it writes a fractional median into them. With `real` values this does not arise.
