# House-prices preprocessing core, modelled in Dafny

This project models the data-cleaning steps that the house-prices regression
pipeline runs before training:

- **Missing-value handling.**
  - A *drop* strategy removes the listed columns.
  - A *fill* strategy fills the missing cells of the listed columns. Its
    methods are `median`, `mean`, `most_frequent` and `constant`.
  - A handler wraps either strategy as a scikit-learn style
    `fit`/`transform` step that records the column names it saw.
- **Outlier capping.** The capper either clips each numeric column to
  quartile-derived bounds (`iqr`) or overwrites values whose z-score exceeds
  a threshold (`zscore`). Any other method name returns the data unchanged.
- **Rare-category collapsing.** Every `MSSubClass` value seen fewer than 20
  times becomes `'Other'`.
- **Table-driven category mapping.** Each mapped column is recoded cell by
  cell through its lookup table. The tables are a parameter.

A table is a `Frames.Frame` with these parts:
- its column names, in order;
- a map from name to column;
- a row count.

A cell is `Missing`, a number (`Num`, an exact real) or text (`Str`). Every
operation is a pure function returning a new frame, so "the input is not
mutated" holds by construction. The errors the code raises are values of
`Frames.Error`, returned in a `Result`:
- `KeyError` for an absent column;
- the two `ValueError`s of the fill strategy, as `MissingFillValue` and
  `UnsupportedMethod`;
- pandas' `TypeError` for a median or mean over text, as `NonNumericColumn`;
- the `IndexError` of `mode().iloc[0]` on an empty mode table, as
  `EmptyMode`;
- the `AttributeError` of asking for feature names before any transform, as
  `NoFeatureNames`.

The library statistics are defined in the `Stats` module over exact reals:
- the median;
- the mean;
- the population variance;
- percentiles by linear interpolation between the closest ranks.

The tie-break between equally frequent values is in the `Modes` module.

## Model

| member | source | states |
|---|---|---|
| `MissingValues.DropColumns` | src/missing_values_handling.py:30-38 | Succeeds exactly when every listed column exists, otherwise KeyError naming an absent listed column. On success it removes exactly the listed columns, keeps every other column unchanged and in order, and keeps the row count. |
| `MissingValues.Without` | src/missing_values_handling.py:38 | The survivors are exactly the names not dropped, stay distinct, and come back unchanged when nothing is dropped. A single dropped name leaves nothing. |
| `MissingValues.WithoutAppend` | src/missing_values_handling.py:38 | Dropping distributes over concatenation, so surviving columns keep their relative order. With the one-name cases, this fixes the result for every input. |
| `MissingValues.WithoutExample` | src/missing_values_handling.py:38 | Dropping `b` from `[a, b, c]` gives `[a, c]`. |
| `MissingValues.DropExactly` | src/missing_values_handling.py:38 | A column survives the drop iff it is not listed, whether or not it holds missing cells; survivors are unchanged. |
| `MissingValues.DropTwiceRaises` | src/missing_values_handling.py:38 | Dropping the same non-empty list twice raises: the drop strategy is not idempotent. |
| `MissingValues.FillColumn` | src/missing_values_handling.py:59 | `fillna` with one value: every missing cell becomes the value, every present cell stays, and a present fill value leaves no missing cell. |
| `MissingValues.FillValue` | src/missing_values_handling.py:50-59 | The value one listed column is filled with. `constant` gives the fill value itself. `median` and `mean` are NaN (missing) exactly when the column has no numbers, and otherwise lie between the column's smallest and largest number. `most_frequent` is NaN exactly when the column has no present value, and otherwise is one of the column's modes. |
| `MissingValues.FirstText` | src/missing_values_handling.py:51-53 | Finds a listed column holding text iff one exists: the column a median or mean fill fails on. |
| `MissingValues.FillListed` | src/missing_values_handling.py:51-59 | Each listed column is filled from its own statistic; the names, the row count and every other column are unchanged. |
| `MissingValues.FillMissing` | src/missing_values_handling.py:47-63 | Succeeds exactly when the documented checks pass. Otherwise it raises, in the code's order: unknown method; `constant` with no fill value; absent listed column; text under median or mean; no present value for `most_frequent`. The error values are pinned down: median or mean over a listed text column names a listed column that holds text, and `most_frequent` with no present value in any listed column gives the empty-mode error. On success only listed columns change, present cells are kept, and missing cells get the method's fill value. |
| `MissingValues.ParseMethod` | src/missing_values_handling.py:50-61 | A method name selects the fill method spelled that way. Every other name is unsupported, because no method is spelled like it. |
| `MissingValues.ParseMethodName` | src/missing_values_handling.py:50-56 | Each of the four methods is accepted under its own name. |
| `MissingValues.MedianRuns` | src/missing_values_handling.py:50-51 | With every listed column present and numeric, `median` does not raise, and it fills every listed column from that column's own median. |
| `MissingValues.DefaultFillIsMedian` | src/missing_values_handling.py:42-51 | A fill strategy given only its features defaults to `median`: each missing cell of a listed numeric column gets that column's median. |
| `MissingValues.HandleMissingValues` | src/missing_values_handling.py:30-63 | Either strategy keeps the row count and leaves every unlisted column it keeps unchanged. |
| `MissingValues.ConstantFill` | src/missing_values_handling.py:56-59 | `constant` with any non-None value succeeds (0 included, as used at src/data_preprocessing.py:37). Missing cells become that value and present cells stay; nothing outside the listed columns changes. |
| `MissingValues.MedianFill` | src/missing_values_handling.py:50-51 | `median` fills each missing cell of a listed column with `Stats.Median` of that column's own numbers, which lies between two of them and does not depend on row order. A column with no numbers stays missing. |
| `MissingValues.MeanFill` | src/missing_values_handling.py:52-53 | `mean` fills each listed column with its own mean, which lies between the column's minimum and maximum. A column with no numbers stays missing. |
| `MissingValues.MostFrequentFill` | src/missing_values_handling.py:54-55 | `most_frequent` fills each listed column with one of its own modes. On a tie it uses the mode that sorts first. |
| `MissingValues.MedianFillExample` | src/missing_values_handling.py:50-51 | `[1, 2, missing, 4]` filled by median is `[1, 2, 2, 4]`. |
| `MissingValues.FillColumnNoOp` | src/missing_values_handling.py:59 | A column with no missing cell, or a fill with a missing value, is left unchanged. |
| `MissingValues.FillValueStable` | src/missing_values_handling.py:50-59 | Refilling a filled column with its recomputed statistic changes nothing. |
| `MissingValues.FillKeepsSuccess` | src/missing_values_handling.py:50-55 | Filling adds no text to a numeric column and loses no present cell. A second run therefore passes the same checks. |
| `MissingValues.FillListedIdempotent` | src/missing_values_handling.py:51-59 | Rewriting the listed columns again from the rewritten frame changes nothing. |
| `MissingValues.FillSucceedsAgain` | src/missing_values_handling.py:47-63 | A fill that succeeded on a frame also succeeds on its own output. |
| `MissingValues.FillIdempotent` | src/missing_values_handling.py:47-63 | Running a successful fill strategy on its own output returns that output. |
| `MissingValues.UnknownMethodRaisesOnTransform` | src/missing_values_handling.py:42-61 | A strategy with an unknown method name is built without complaint and keeps the name; the error is raised only when the handler transforms a frame. |
| `MissingValues.FitLearnsNothing` | src/missing_values_handling.py:70-75 | `fit` stores nothing: a fitted handler transforms any frame exactly like an unfitted one, running its strategy on that frame. |
| `MissingValues.FeatureNamesOut` | src/missing_values_handling.py:73-92 | Before any transform there are no feature names. Given input features are returned unchanged. Otherwise the names are those of the last transformed input, recorded before the strategy ran, so they include columns a drop removed. |
| `Frames.FirstAbsent` | src/missing_values_handling.py:51 | Reports no column iff every key is present; otherwise it reports the first absent key, and every earlier key is present. |
| `Stats.Median` | src/missing_values_handling.py:51 | The median lies between two of the values. Its full meaning comes from the two lemmas below: it does not depend on the row order, and on sorted values it is the middle value. |
| `Stats.SortedUnique` | src/missing_values_handling.py:51 | Two sorted sequences holding the same values with the same multiplicities are equal. |
| `Stats.SortPermutation` | src/missing_values_handling.py:51 | Reordering the input does not change the sorted output. |
| `Stats.MedianPermutation` | src/missing_values_handling.py:51 | Reordering the values does not change the median. |
| `Stats.MedianOfSort` | src/missing_values_handling.py:51 | The median of the values equals the median of their sorted order. |
| `Stats.MedianOfThree` | src/missing_values_handling.py:51 | For b <= c <= a, the median of the unsorted `[a, b, c]` is c. |
| `Stats.MedianOfSortedThree` | src/missing_values_handling.py:51 | The median of three sorted values is the middle one. |
| `Stats.MedianUnsortedExample` | src/missing_values_handling.py:51 | The median of `[3, 1, 2]` is 2, not the middle row's 1. |
| `Frames.Numbers` | src/missing_values_handling.py:51-53 | The numbers of a column are its numeric cells with their multiplicities: each value occurs as often as its cell does in the column. |
| `Stats.MedianOfSorted` | src/missing_values_handling.py:51 | On sorted values the median is the middle value, or the mean of the two middle values. |
| `Stats.Sort` | src/outlier_detection.py:50-51 | Sorting gives an ascending permutation of the values, which percentiles and medians are read from. |
| `Stats.MeanBetweenMinAndMax` | src/missing_values_handling.py:53 | The mean lies between the minimum and the maximum. |
| `Stats.SortSorted` | src/outlier_detection.py:50-51 | Sorting sorted values returns them unchanged. |
| `Stats.Percentile` | src/outlier_detection.py:50-51 | The linearly interpolated percentile of sorted values lies between the smallest and the largest. |
| `Stats.PercentileMonotone` | src/outlier_detection.py:50-51 | A higher percentile is never smaller, so Q1 <= Q3. |
| `Stats.Variance` | src/outlier_detection.py:40 | The population variance behind the z-score is never negative. |
| `Modes.Mode` | src/missing_values_handling.py:55 | None iff the column has no present value. Otherwise it returns a mode (no present value is more frequent) that sorts before every other mode. |
| `Modes.ModeUnique` | src/missing_values_handling.py:55 | A mode that sorts before every other mode is the one reported. |
| `Outliers.Clip` | src/outlier_detection.py:57 | Values inside the bounds stay and values outside become the nearer bound, so with ordered bounds every result is inside them. With reversed bounds every value becomes the upper one. |
| `Outliers.Quartiles` | src/outlier_detection.py:50-51 | Q1 <= Q3. |
| `Outliers.QuartilesOfSorted` | src/outlier_detection.py:50-51 | On sorted values the quartiles are the 25th and 75th percentiles of the values as they stand, with no reordering. |
| `Outliers.QuartilesPermutation` | src/outlier_detection.py:50-51 | Reordering the column does not change the quartiles. |
| `Outliers.QuartilesWithinRange` | src/outlier_detection.py:50-51 | Both quartiles lie between the column's minimum and maximum. |
| `Outliers.CapColumn` | src/outlier_detection.py:36-59 | The length is kept. An unknown method returns the column unchanged. `iqr` puts every value within its bounds and keeps the values already inside. `zscore` with a non-negative threshold replaces exactly the values with an absolute z-score above it by the threshold. |
| `Outliers.Transform` | src/outlier_detection.py:36-59 | Each column is capped from its own statistics; shapes are kept. |
| `Outliers.IqrComputedBounds` | src/outlier_detection.py:48-57 | Without caps the bounds are Q1 - 1.5 IQR and Q3 + 1.5 IQR. They enclose both quartiles, which lie within the data's range, and every capped value lies within the bounds. |
| `Outliers.IqrCapOverridesOneSide` | src/outlier_detection.py:54-55 | An explicit cap replaces the computed bound on its own side only. |
| `Outliers.IqrBoundsOfQuartiles` | src/outlier_detection.py:52-55 | Without caps, the bounds are determined by the quartiles alone: Q1 - 1.5 (Q3 - Q1) and Q3 + 1.5 (Q3 - Q1). |
| `Outliers.IqrBounds` | src/outlier_detection.py:50-55 | An explicit cap is the bound on its own side. A computed lower bound lies at or below Q1, and a computed upper bound at or above Q3. |
| `Outliers.IqrCap` | src/outlier_detection.py:48-57 | The length is kept. Without explicit caps, no value lying between the quartiles moves. |
| `Outliers.IqrCapIsClip` | src/outlier_detection.py:48-57 | `iqr` capping of a non-empty column is exactly clipping to its bounds, min(max(x, lower), upper) for every value. |
| `Outliers.IqrIgnoresThreshold` | src/outlier_detection.py:48-57 | `iqr` ignores the threshold: the multiplier is fixed at 1.5. |
| `Outliers.IqrExample` | src/outlier_detection.py:48-57 | `[1, 2, 3, 4, 100]` has Q1 = 2 and Q3 = 4, so it caps to `[1, 2, 3, 4, 7]`. |
| `Outliers.QuartilesOfSorted5` | src/outlier_detection.py:50-51 | The quartiles of five sorted values are the second and the fourth. |
| `Outliers.QuartilesOfSorted4` | src/outlier_detection.py:50-51 | The quartiles of four sorted values interpolate 3/4 of the way between the first two and 1/4 of the way between the last two. |
| `Outliers.IqrNotIdempotent` | src/outlier_detection.py:48-57 | Capping twice differs from capping once: `[0, 100, 100, 100]` caps to `[37.5, 100, 100, 100]`, which caps again to `[60.9375, 100, 100, 100]`. |
| `Outliers.ZscoreReplacesWithThreshold` | src/outlier_detection.py:38-46 | With a threshold t >= 0, a value whose absolute z-score exceeds t becomes t itself, never -t, and other values stay. The branch for an absolute z-score below -t never fires. |
| `Outliers.ZscoreCap` | src/outlier_detection.py:38-46 | Every value either stays or becomes t or -t. Nothing changes in a column of zero variance. With t >= 0, a changed value always becomes t. |
| `Outliers.AboveThresholdIsAbsZ` | src/outlier_detection.py:40-46 | The square-root-free test used by the model is the z-score test itself. With sd any non-negative square root of the population variance, it holds iff sd > 0 and abs(x - mean) > t * sd. That is abs(z) > t, for every sign of t, and it is false on a zero-deviation column whose z-scores are NaN. |
| `Outliers.BelowNegatedThresholdIsAbsZ` | src/outlier_detection.py:40-45 | Likewise, the lower test holds iff sd > 0 and abs(x - mean) < -t * sd, which is abs(z) < -t. |
| `Outliers.ZscoreBoundaryExample` | src/outlier_detection.py:38-46 | With threshold 1, `[-1, 1]` is unchanged: both z-scores are exactly 1, and the comparison is strict. |
| `Outliers.ZscoreHigherThresholdExample` | src/outlier_detection.py:38-46 | With threshold 1.5, `[0, 0, -10]` is unchanged: the z-score of -10 is about 1.41, which is not above 1.5. |
| `Outliers.DefaultCapperZscore` | src/outlier_detection.py:7-46 | The capper with default arguments, as built in pipelines/model_training_pipeline.py:50 (method `zscore`, threshold 3), replaces a value by 3 exactly when its absolute z-score exceeds 3, and keeps it otherwise. |
| `Outliers.ZscoreIgnoresCaps` | src/outlier_detection.py:38-46 | `zscore` ignores the explicit caps. |
| `Outliers.ZscoreConstantColumn` | src/outlier_detection.py:40-46 | A constant column has zero variance and NaN z-scores, so it is left unchanged. |
| `Outliers.ZscoreNegativeThreshold` | src/outlier_detection.py:42-46 | With t < 0 and positive variance, every value becomes t. |
| `Outliers.ZscoreExample` | src/outlier_detection.py:38-46 | `[0, 0, -10]` with threshold 1 becomes `[0, 0, 1]`. |
| `Outliers.ExampleMoments` | src/outlier_detection.py:40 | `[0, 0, -10]` has mean -10/3 and population variance 200/9. |
| `Outliers.FitStoresNothing` | src/outlier_detection.py:22-27 | `fit` stores nothing: a fitted capper transforms exactly like the unfitted one. |
| `Frames.Count` | data/feature_engineering.py:8 | The count of a value behind `value_counts` is at most the column length, and it is positive exactly when the value occurs in the column. |
| `RareCategories.Relabel` | data/feature_engineering.py:8-10 | A present value counted fewer than 20 times in the original column becomes `'Other'`. A value counted 20 or more times stays, a missing cell stays missing, and no other value appears. |
| `RareCategories.HandleRareCategories` | data/feature_engineering.py:4-11 | KeyError iff `MSSubClass` is absent. Otherwise only that column is relabelled; the names, the row count, the other columns and well-formedness are kept. |
| `RareCategories.CountKept` | data/feature_engineering.py:8 | A column that keeps every occurrence of a value counts it at least as often. |
| `RareCategories.CountSameRows` | data/feature_engineering.py:8 | Two columns holding a value at exactly the same rows count it equally. |
| `RareCategories.FrequentKeepsCount` | data/feature_engineering.py:8-10 | A frequent value other than `'Other'` keeps exactly its count after collapsing. |
| `RareCategories.NoRareLeft` | data/feature_engineering.py:8-10 | After collapsing, every value that is still rare is `'Other'`. |
| `RareCategories.RelabelIdempotent` | data/feature_engineering.py:8-10 | Collapsing twice is collapsing once. |
| `RareCategories.HandleRareCategoriesIdempotent` | data/feature_engineering.py:4-11 | The frame-level collapse is idempotent. |
| `RareCategories.OtherAppears` | data/feature_engineering.py:10 | `'Other'` appears in the result iff the column held a rare value or already held `'Other'`. |
| `RareCategories.ThresholdIsStrict` | data/feature_engineering.py:8 | A value seen exactly 20 times is not rare and stays. |
| `RareCategories.TwoClasses` | data/feature_engineering.py:8-10 | In a column with m < 20 copies of one class, n >= 20 copies of another and a missing cell, the first class is collapsed, the second is kept and the missing cell stays. |
| `RareCategories.CountAppend` | data/feature_engineering.py:8 | Counts add up over concatenated columns. |
| `CategoryMapping.MapColumn` | data/data_preprocessing.py:11 | A cell listed in the table becomes its table value. A cell that is not a key becomes missing. |
| `CategoryMapping.MapAndConvert` | data/data_preprocessing.py:5-13 | Raises KeyError iff some mapped column is absent, naming the first one in iteration order. On success only mapped columns may differ; the names and the row count are kept. |
| `CategoryMapping.MapAndConvertValid` | data/data_preprocessing.py:10-11 | A well-formed frame stays well-formed. |
| `CategoryMapping.MapAndConvertColumns` | data/data_preprocessing.py:10-11 | With distinct keys, every mapped column is its table applied to the original column. |
| `CategoryMapping.OrderIndependent` | data/data_preprocessing.py:10-11 | A reordering of the same mappings succeeds iff the original does, and then gives the same frame. |
| `CategoryMapping.SameKeySet` | data/data_preprocessing.py:10 | Reorderings rewrite the same set of columns. |
| `CategoryMapping.MapColumnIdentity` | data/data_preprocessing.py:11 | A table mapping every value of the column to itself leaves the column unchanged. |
| `CategoryMapping.MapColumnExample` | data/data_preprocessing.py:11 | `['Pave', 'Grvl', 'Dirt']` through `{'Pave': 1, 'Grvl': 0}` becomes `[1, 0, missing]`. |

## Left out

- The handler's parameter plumbing, `set_strategy`, `get_params` and `set_params`: these only store attributes and state nothing to prove.
- The `grouping_feature` argument that one pipeline passes to the fill strategy: the strategy's constructor does not accept it.
- `astype('category')` after the mapping: the model keeps the mapped values and does not model a pandas dtype.
- NaN cells inside the outlier capper: the capper is modelled on complete numeric columns, as the pipeline applies it to the target.
- Floating point: statistics are over exact reals, so rounding in the median, mean, variance and percentiles is not modelled.
- The square root in the z-score: the model compares squares, (x - mean)^2 > t^2 * variance for t >= 0, and has no square-root function. `Outliers.AboveThresholdIsAbsZ` and `Outliers.BelowNegatedThresholdIsAbsZ` show that this agrees with abs(x - mean) > t * sd for any non-negative square root sd of the variance.
- `Outliers.Clip`: follows numpy's min(max(x, lo), hi). On a pandas object, `clip` swaps a reversed pair of scalar bounds, which can only arise from explicit caps.
- `MissingValues.DropColumns`: reports one absent column. pandas lists every absent column in the KeyError message.
- `MissingValues.FillMissing`: the KeyError names one absent listed column, where pandas' message lists all of them. The TypeError for median or mean over text follows pandas 2, where older versions silently skipped such columns.
- `Outliers.CapColumn`: an empty column under `iqr` comes back empty. numpy's percentile of an empty array raises instead of returning a value, and that error is not modelled.
- `Modes.Mode`: orders numbers before text. pandas cannot sort a mixture of the two and leaves such modes unsorted.
- The other files of the repository (data ingestion, analysis plots, model building, pipelines, the web app, logging) and the contents of the category mapping tables (`category_mappings` is not part of this model, so the tables are a parameter).
