# EvoNEST mechanical data science core, in Dafny

This project models the two data engines of the EvoNEST data-science scripts
and proves properties of them.

* **Mechanical data processing** (`MechanicalDataProcessor` and the
  configuration merge):
  * For each experiment, the raw strain and stress values are paired and the
    missing ones dropped.
  * The curve is trimmed from the point nearest zero strain up to the
    detected fracture point. The fracture point is either the stress peak or
    the first post-peak point whose stress drops below
    `max_stress * (1 - drop_threshold)`.
  * A polynomial is fitted to the trimmed curve, and a result record is
    assembled with its `None` values removed.
  * The batch loop runs this over the selected experiment ids, in order,
    counting successes and failures.
* **Outlier analysis** (`OutlierAnalyzer`):
  * The processed records are flattened into table rows: the taxonomy, one
    `coeff_<i>` column per polynomial coefficient, `r_squared`, and one
    `trait_<type>` column per trait type. A trait column holds the mean of
    the measurements that convert to a number.
  * The rows are grouped by (family, name, subsampletype).
  * For every group of at least two rows, and for every analysable column
    with at least two values, the statistics are computed, together with the
    outliers outside the 1-, 2- and 3-sigma bands.
  * An experiment is flagged when it is an outlier in at least the threshold
    share of its group's analysed traits. The flags are ordered by decreasing
    share.

Where the Python code loops, mutates or keeps state, the model does the same:
* `OutlierAnalyzer` is a class whose methods update `data` and
  `experimentsDf`.
* The loops of the processor and of the analyzer are Dafny loops, each proved
  against a specification function.
* Two loops are not: `_merge_configs` iterates over the saved items, and is
  modelled as a map comprehension in the function `MergeConfigs`; the
  `pd.to_numeric` loop over the trait columns is left out (see below).

The properties below are proved about those specification functions.

Modules:
* `SeqMath`: min, max, mean, slicing, dedup, filter and a descending sort.
* `JsonValue`: JSON values, `dict.get`, truthiness and `or`.
* `ConfigMerge`: `_merge_configs`.
* `CurveTrimmer`: fracture detection and trimming.
* `ExperimentProcessor`: extraction, the fit and the result record.
* `BatchRunner`: `process_all_experiments`.
* `OutlierFrame`: `prepare_dataframe`.
* `TraitStatistics`: per-group statistics and outlier selection.
* `OutlierGrouping`: the catalogue, grouping and `analyze_all_traits`.
* `OutlierFlagging`: `identify_outlier_experiments`.
* `OutlierAnalysis`: the `OutlierAnalyzer` class and its loops.

Three things are parameters of the model rather than part of it:
* the polynomial fit and its R² (`Fitter`);
* the pandas standard deviation (`StdFunction`);
* the parsed JSON file.

## Model

| member | source | states |
|---|---|---|
| `ConfigMerge.MergeConfigs` | src/python/process_mechanical_data.py:75-83 | the merged keys are the union of both key sets; a key only in the defaults keeps its default value; a saved value replaces the default unless both are dictionaries, in which case the result is again a dictionary; with nothing saved the merge is the defaults, and with no defaults it is the saved configuration |
| `ConfigMerge.SavedLeavesWin` | src/python/process_mechanical_data.py:78-83 | every non-dictionary value the saved configuration holds at a nested path is found unchanged at that path in the merge |
| `ConfigMerge.DefaultLeavesSurvive` | src/python/process_mechanical_data.py:77-83 | a default leaf survives at its path when no saved entry along that path replaces it |
| `ConfigMerge.MergeIdempotent` | src/python/process_mechanical_data.py:75-83 | merging the same saved configuration twice equals merging it once |
| `ConfigMerge.MergeSelf` | src/python/process_mechanical_data.py:75-83 | a configuration merged with itself is unchanged |
| `SeqMath.Min` | src/python/process_mechanical_data.py:389-390 | `min()` is an element of the array and is at most every element |
| `SeqMath.Max` | src/python/process_mechanical_data.py:389-391 | `max()` is an element of the array and is at least every element |
| `SeqMath.MeanBetween` | src/python/analyse_outliers.py:163 | the mean of a non-empty list lies between its least and greatest element |
| `SeqMath.PySlice` | src/python/process_mechanical_data.py:379-380 | Python slicing with clipped bounds: the exact slice when the bounds are in range, the suffix from `lo` when only `hi` lies past the end, empty when the bounds cross or start past the end |
| `SeqMath.PyPrefix` | src/python/process_mechanical_data.py:584 | `ids[:n]` is a prefix of length `min(n, len)`, or `len + n` elements (at least none) for a negative `n` |
| `SeqMath.DedupFacts` | src/python/analyse_outliers.py:151-152 | the keys of an insertion-ordered dictionary are distinct and are exactly the inserted keys |
| `SeqMath.SortDesc` | src/python/analyse_outliers.py:296 | the sorted table is a permutation of its input, ordered by non-increasing key |
| `CurveTrimmer.ArgMax` | src/python/process_mechanical_data.py:336 | `np.argmax` is the first index that holds the greatest value |
| `CurveTrimmer.ArgMinAbs` | src/python/process_mechanical_data.py:365 | `np.argmin(np.abs(strain))` is the first index whose value is closest to zero |
| `CurveTrimmer.FirstBelow` | src/python/process_mechanical_data.py:343-348 | the scan returns the first index in range whose stress is below the level, and none when every scanned value is at or above it |
| `CurveTrimmer.FractureIndex` | src/python/process_mechanical_data.py:332-350 | no fracture index for fewer than `min_points + 10` points; the peak index under `stop_max_stress`; otherwise the first index from the peak, before the last `min_points` points, whose stress is below `max_stress * (1 - drop_threshold)`, and none when no such index exists |
| `CurveTrimmer.DetectFracturePoint` | src/python/process_mechanical_data.py:321-350 | the loop with its early returns computes exactly that fracture index |
| `CurveTrimmer.TrimIsSlice` | src/python/process_mechanical_data.py:360-394 | the trim keeps `strain[zero_idx:end]` and `stress[zero_idx:end]`, where `end` is the fracture index or the length; `trim_info` counts the original and kept points and the start index; the trim fails (an empty slice makes `min()` raise) exactly when `end <= zero_idx` |
| `CurveTrimmer.TrimInfoFacts` | src/python/process_mechanical_data.py:383-392 | `fracture_detected` holds exactly when a fracture index was found, and that index is reported; `max_stress` is the greatest kept stress (the 0.0 fallback is never used); each range is ordered |
| `CurveTrimmer.TrimStartsNearestZero` | src/python/process_mechanical_data.py:365-380 | the first kept point has the smallest absolute strain of the whole curve |
| `CurveTrimmer.StopAtMaxExcludesPeak` | src/python/process_mechanical_data.py:339-380 | under `stop_max_stress` the kept stresses are those strictly before the peak, and every kept stress is below the peak stress |
| `ExperimentProcessor.KeptIndicesExact` | src/python/process_mechanical_data.py:412-415 | the kept indices increase, and an index below the shorter length is kept exactly when both its strain and its stress value are present |
| `ExperimentProcessor.PairValues` | src/python/process_mechanical_data.py:409-415 | the pairing loop yields the strain and the stress values at exactly the kept indices, in order |
| `ExperimentProcessor.ExtractStressStrainData` | src/python/process_mechanical_data.py:396-438 | the method returns `None` when no pair is kept or the trim fails, and otherwise the trimmed curve, the metadata name (default `'Unknown'`) and `trim_info` |
| `ExperimentProcessor.ExtractIsPairedSlice` | src/python/process_mechanical_data.py:409-434 | a successful extraction returns the same non-empty slice of the paired strain and stress values, starting at the point nearest zero strain, and reports whether a fracture was detected |
| `ExperimentProcessor.DropNone` | src/python/process_mechanical_data.py:519 | the filtered record keeps exactly the entries whose value is not `None`, unchanged |
| `ExperimentProcessor.FitPolynomialToExperiment` | src/python/process_mechanical_data.py:440-525 | the method returns `None` for an unknown id, a failed extraction, fewer than 10 points or a fit that raises, and otherwise the assembled record |
| `ExperimentProcessor.ProcessAcceptance` | src/python/process_mechanical_data.py:451-468 | a record is produced if and only if the id exists, extraction succeeds with at least 10 points, and the fit succeeds |
| `ExperimentProcessor.ProcessedRecord` | src/python/process_mechanical_data.py:456-521 | a produced record is the `None`-filtered result dictionary built from the experiment, its extraction and its fit |
| `ExperimentProcessor.BuiltRecordFacts` | src/python/process_mechanical_data.py:471-519 | the filtered dictionary holds no `None`; it names its experiment and counts its data points; a taxonomy field is present exactly when the sample chain is non-empty and its first sample has a non-null value there, and that value is copied |
| `ExperimentProcessor.RecordFacts` | src/python/process_mechanical_data.py:440-521 | a produced record holds no `None`, carries its experiment id and has at least 10 data points; its taxonomy fields come from the first sample of a non-empty chain |
| `ExperimentProcessor.TraitRecordFields` | src/python/process_mechanical_data.py:505-512 | a copied trait carries `detail` and `nfibres` exactly when its type is `'diameter'`, and its note is `note or notes` |
| `ExperimentProcessor.BuiltRecordTraits` | src/python/process_mechanical_data.py:504-515 | the filtered dictionary's `associatedTraits` has one copied entry per input trait, in order |
| `ExperimentProcessor.RecordTraits` | src/python/process_mechanical_data.py:504-514 | a produced record's `associatedTraits` has one copied entry per input trait, in order |
| `BatchRunner.SelectedIds` | src/python/process_mechanical_data.py:579-584 | the batch takes the id prefix of length `max_experiments` when that value is truthy, and all ids otherwise |
| `BatchRunner.SuccessesFollowIds` | src/python/process_mechanical_data.py:593-599 | the `j`-th result is the record of the `j`-th succeeding id, and an id succeeds exactly when its experiment produces a record |
| `BatchRunner.SuccessesCarryIds` | src/python/process_mechanical_data.py:593-597 | each result carries the id of the experiment it came from, in id order |
| `BatchRunner.ProcessAllExperiments` | src/python/process_mechanical_data.py:572-625 | every selected id is counted once, as processed or as failed; the results are the produced records in id order, one per processed id |
| `OutlierFrame.NatStringParses` | src/python/analyse_outliers.py:145-148 | `float()` of a decimal digit string, with or without a minus sign, is the number it spells |
| `OutlierFrame.PresentMembers` | src/python/analyse_outliers.py:158 | the NaN filter keeps exactly the present values, and it is empty exactly when every value is missing |
| `OutlierFrame.MeasurementsMembers` | src/python/analyse_outliers.py:139-153 | `traits_dict[type]` holds exactly the converted measurements of the collected traits of that type |
| `OutlierFrame.TraitValueFacts` | src/python/analyse_outliers.py:155-166 | column `trait_<type>` is the mean of exactly the measurements of that type that convert to a number; it is NaN when none does, and otherwise lies between their least and greatest value |
| `OutlierFrame.CollectedKindsMembers` | src/python/analyse_outliers.py:139-143 | a type is collected exactly when some trait has that truthy type and a measurement that is not `None` |
| `OutlierFrame.TraitKindsFacts` | src/python/analyse_outliers.py:151-152 | each collected type gets one dictionary key, and no other type does |
| `OutlierFrame.GatherTraits` | src/python/analyse_outliers.py:137-153 | the gathering loop yields exactly the collected types as keys, in order of first sight, each with the converted measurements of that type in order |
| `OutlierFrame.RowColumnsFacts` | src/python/analyse_outliers.py:128-166 | a record's columns are distinct: `coeff_i` for each coefficient, `r_squared`, and `trait_<type>` for each collected type |
| `OutlierFrame.FlattenFacts` | src/python/analyse_outliers.py:116-166 | the row carries its experiment id; `name` is `genus + ' ' + species` when both are truthy and `''` otherwise; coefficient `i` lands in `coeff_i`; `r_squared` is copied; a trait column exists exactly for the collected types and holds their mean |
| `OutlierFrame.FlattenRecord` | src/python/analyse_outliers.py:116-168 | the per-experiment loop body builds exactly that row |
| `OutlierFrame.FrameFacts` | src/python/analyse_outliers.py:168-170 | the table has one row per experiment, in order; its columns are distinct and are exactly the keys some record sets; `r_squared` is a column of any non-empty table |
| `TraitStatistics.ColumnValuesPresent` | src/python/analyse_outliers.py:182 | `dropna()` keeps exactly the values the group's rows hold in the column, and is empty exactly when no row has one |
| `TraitStatistics.StatisticsFacts` | src/python/analyse_outliers.py:180-208 | the statistics are `None` exactly when no row has a value; otherwise `count` is the number of values (between 1 and the group size), `min <= mean <= max`, `std` is the supplied deviation, and band `k` is `mean ± k·std` |
| `TraitStatistics.SelectOutliersMembers` | src/python/analyse_outliers.py:218-222 | the mask selects exactly the rows with a present value strictly outside the band |
| `TraitStatistics.FindOutliersMembers` | src/python/analyse_outliers.py:210-232 | no outliers without statistics; otherwise a row is reported if and only if its value is present and strictly outside the band of the level, and each reported row carries `(value - mean) / std` |
| `TraitStatistics.FindOutliersDeviations` | src/python/analyse_outliers.py:227-230 | the reported rows are ordered by non-increasing distance from the mean, and each carries its deviation |
| `TraitStatistics.FindOutliersOrdered` | src/python/analyse_outliers.py:228-230 | with a positive deviation the reported rows come by non-increasing absolute deviation |
| `TraitStatistics.SelectOutliersShrink` | src/python/analyse_outliers.py:218-222 | a wider band selects a sub-multiset of the rows a narrower band selects |
| `TraitStatistics.OutlierLevelsNest` | src/python/analyse_outliers.py:202-222 | with a non-negative deviation, every 3-sigma outlier is a 2-sigma outlier and every 2-sigma outlier is a 1-sigma outlier |
| `TraitStatistics.FindOutliersDistinctIds` | src/python/analyse_outliers.py:218-230 | when experiment ids are distinct in the group, each appears at most once in an outlier table |
| `OutlierGrouping.CoeffsUpToFacts` | src/python/analyse_outliers.py:310-314 | the coefficient probe keeps, once each, exactly the columns `coeff_i` with `i <= degree` that are in the table |
| `OutlierGrouping.CatalogueFacts` | src/python/analyse_outliers.py:303-318 | the catalogue lists once each exactly the table's `r_squared`, its coefficients up to the degree and its trait columns |
| `OutlierGrouping.GroupingFacts` | src/python/analyse_outliers.py:329 | the group keys are distinct and are exactly those carried by some row; a group holds exactly the rows with its key; ids that are distinct in the table stay distinct in a group |
| `OutlierGrouping.AnalyzeTraitFacts` | src/python/analyse_outliers.py:352-361 | a trait is analysed in a group if and only if at least two of its rows hold a value; its three outlier tables are those of levels 1, 2 and 3 |
| `OutlierGrouping.TraitEntriesFacts` | src/python/analyse_outliers.py:348-361 | a group's `traits` dictionary holds, once each, exactly the catalogue columns that are table columns and that the analysis accepts, with their analyses |
| `OutlierGrouping.GroupEntriesFacts` | src/python/analyse_outliers.py:334-346 | every results entry comes from a key with at least two rows and holds that group's analysis; every such key has an entry; distinct keys give distinct entries |
| `OutlierGrouping.AnalyzeAllGroups` | src/python/analyse_outliers.py:329-346 | results is undefined (`KeyError`) exactly for an empty table; otherwise there is one entry per distinct group of at least two rows and no other, carrying the group's fields and size |
| `OutlierGrouping.AnalyzedGroupTraits` | src/python/analyse_outliers.py:348-361 | within an analysed group a catalogue trait appears exactly when at least two rows hold a value for it, once, with its statistics and its outlier tables over the group's rows |
| `OutlierGrouping.AnalyzeAllUniqueIds` | src/python/analyse_outliers.py:329-361 | when experiment ids are distinct in the table, every outlier table of every analysed trait lists each experiment at most once |
| `OutlierFlagging.Count` | src/python/analyse_outliers.py:262-274 | the counter's dictionary keys are exactly its insertion-order keys |
| `OutlierFlagging.CountFacts` | src/python/analyse_outliers.py:253-274 | after the counting loops there is one entry per experiment met, in order of first meeting; its count is the number of outlier rows naming it, and its trait list names their traits |
| `OutlierFlagging.TraitsHittingOneTrait` | src/python/analyse_outliers.py:262-274 | the inner loop over one outlier table adds the trait once to an experiment's list when the table lists it, and otherwise adds nothing |
| `OutlierFlagging.HitsPerTrait` | src/python/analyse_outliers.py:259-274 | an experiment's trait list names, in dictionary order, exactly the analysed traits whose outlier table lists it |
| `OutlierFlagging.FlagsOfMembers` | src/python/analyse_outliers.py:277-292 | the threshold loop emits exactly the counted experiments whose count over the group's trait total reaches the threshold |
| `OutlierFlagging.EmittedMembers` | src/python/analyse_outliers.py:247-292 | the emitted rows are exactly the rows some group contributes |
| `OutlierFlagging.GroupFlagsSound` | src/python/analyse_outliers.py:254-292 | every row a group emits carries the group's fields, level and trait total; its trait list comes from the counting loops, its count is that list's length (at least 1), and its percentage is count over total and reaches the threshold |
| `OutlierFlagging.IdentifySound` | src/python/analyse_outliers.py:245-298 | the final table is a permutation of the emitted rows, sorted by non-increasing percentage, and every row comes from some analysed group |
| `OutlierFlagging.IdentifyComplete` | src/python/analyse_outliers.py:259-292 | an experiment listed at the level in a group with traits, whose share reaches the threshold, appears in the final table for that group |
| `OutlierFlagging.IdentifyBounded` | src/python/analyse_outliers.py:254-291 | with ids unique per outlier table and traits unique per group, a row's trait list names, once each, the traits whose table lists it; its count is at most the total, and its percentage is at most 1 |
| `OutlierAnalysis.OutlierAnalyzer.constructor` | src/python/analyse_outliers.py:84-99 | the analyzer starts with the given threshold and sigma level, no data and no table |
| `OutlierAnalysis.OutlierAnalyzer.LoadData` | src/python/analyse_outliers.py:101-109 | loading sets `data` and leaves the table unchanged |
| `OutlierAnalysis.OutlierAnalyzer.PrepareDataframe` | src/python/analyse_outliers.py:111-175 | the method keeps `data` and sets the table to one flattened row per experiment, with the columns in order of first appearance |
| `OutlierAnalysis.OutlierAnalyzer.AnalyzeAllTraits` | src/python/analyse_outliers.py:300-363 | the loops compute exactly the specified results: the catalogue, then each group of at least two rows analysed trait by trait |
| `OutlierAnalysis.OutlierAnalyzer.IdentifyOutlierExperiments` | src/python/analyse_outliers.py:234-298 | the loops compute exactly the specified flag table: per-group counts, the threshold test, and the descending sort when non-empty |
| `OutlierAnalysis.BuildCatalogue` | src/python/analyse_outliers.py:303-318 | the catalogue loop yields `r_squared` if present, then the present coefficients up to the degree, then the trait columns |
| `OutlierAnalysis.AnalyzeGroupTraits` | src/python/analyse_outliers.py:348-361 | the per-group trait loop, with its skip rules, yields that group's `traits` dictionary |
| `OutlierAnalysis.AnalyzeOneTrait` | src/python/analyse_outliers.py:352-361 | a trait is analysed if and only if at least two rows of the group hold a value for it; its statistics are then those of the group's column, with a count of at least 2, and its outlier table at each level is the group's outliers at that level |
| `OutlierAnalysis.GroupOutlierFlags` | src/python/analyse_outliers.py:253-292 | a group with no traits is skipped; otherwise the method counts, then emits the experiments whose percentage reaches the threshold, in counter order |
| `OutlierAnalysis.CountGroupOutliers` | src/python/analyse_outliers.py:259-274 | the counting loops over all the group's traits yield the specified counter |
| `OutlierAnalysis.CountTraitOutliers` | src/python/analyse_outliers.py:260-274 | the loop over one trait's outlier rows extends the counter by those rows |
| `OutlierAnalysis.CountOutlierRow` | src/python/analyse_outliers.py:263-274 | a new experiment's entry is created at zero; the entry's count is then incremented and the trait appended |
| `OutlierAnalysis.FlagsAreBounded` | src/python/analyse_outliers.py:111-298 | from loaded experiments with distinct ids to the flag table: each flag lists each trait once, its outlier count is at most its group's trait count, and its percentage is at most 1 |
| `OutlierAnalysis.FrameRowIds` | src/python/analyse_outliers.py:115-170 | distinct experiment ids give distinct row ids in the table |
| `OutlierAnalysis.FrameTraitsDistinct` | src/python/analyse_outliers.py:303-361 | every analysed group of the table lists each trait at most once |
| `OutlierAnalysis.GroupKeyString` | src/python/analyse_outliers.py:335 | the results key is the three group fields joined by `_` |
| `OutlierAnalysis.ResultsDict` | src/python/analyse_outliers.py:335-340 | every analysed group's key string is a key of the results dictionary |
| `OutlierAnalysis.GroupKeyStringCollides` | src/python/analyse_outliers.py:335-346 | two different groups get the same key string, and the dictionary keeps only the second |
| `OutlierAnalysis.MissingFieldCollides` | src/python/analyse_outliers.py:329-335 | a missing family and the family `"nan"` form different groups but get the same key string |

## Left out

- The plotting, printing, `tqdm` progress bars, interactive setup and the
  reading and saving of configuration and data files. The parsed
  configuration and data are passed in as values.
- `Polynomial.fit` and the R² formula: both are a function parameter
  (`Fitter`), with `None` when numpy raises. Their numerics are not modelled.
- The pandas standard deviation is a function parameter (`StdFunction`). The
  statistics' `median` is not modelled.
- Floating point: all arithmetic is on exact reals. NaN and infinity are
  modelled only where they decide a branch: a missing cell is `None`, and a
  zero deviation's quotient is a `Deviation` case.
- `OutlierFrame.ToFloat`: `float()` of a string converts only plain decimal
  strings with an optional sign and point. Python also accepts surrounding
  whitespace, exponents (`1e3`), underscores (`1_000`), `inf`, `Infinity`,
  `nan`, and non-ASCII Unicode decimal digits (such as Arabic-Indic `١٢`). The model treats these strings as failed conversions (missing
  values), so they are left out of a trait's mean, while the source
  includes all but `nan` (an `inf` makes the cell infinite). A `nan`
  string is filtered out by the source too.
- A trait `type` that is not a string is not modelled.
- The `', '.join` of the outlier trait list: the model keeps the list of
  columns. Column names are a datatype (`r_squared`, `coeff_<i>`,
  `trait_<type>`) rather than formatted strings.
- `OutlierAnalysis.OutlierAnalyzer.constructor`: takes the threshold and the
  sigma level directly instead of reading them from the configuration
  manager. `sigma_level` is restricted to 1..3, the only levels for which the
  statistics hold bands; any other value makes the source raise `KeyError`.
- The `pd.to_numeric(..., errors='coerce')` loop over the trait columns
  (analyse_outliers.py:173-175) is not modelled. It would be the identity
  here, because the model's cells are already numbers or missing.
- `pd.DataFrame(records)` on an empty record list has no columns. Grouping it
  raises `KeyError`, which is modelled as the `None` result of `AnalyzeAll`.
  The exception itself is not modelled.
- `SeqMath.SortDesc`: states a permutation in non-increasing key order, but
  not the order among equal keys, which pandas' unstable sort leaves
  unspecified.
- `OutlierAnalysis.OutlierAnalyzer.IdentifyOutlierExperiments`: does not fix
  the order among flags of equal percentage, for the same reason.
- `TraitStatistics.FindOutliersOrdered`: sorts by the distance from the mean,
  which orders rows as `abs_deviation` does when the deviation is non-zero.
  With a zero deviation the source's infinite and NaN deviations make the
  order unspecified; that case is not stated.
- Group order: pandas `groupby` sorts the groups by key, with NaN keys last.
  The model visits the groups in order of first appearance. This changes the
  order of the results entries, and of the flags before their final sort.
- `OutlierAnalysis.OutlierAnalyzer.AnalyzeAllTraits`: follows the corrected
  keying by the (family, name, subsampletype) tuple, with one entry per
  group. The source keys `results` by the string `f"{family}_{name}_{subsampletype}"`,
  and a later group whose string collides overwrites an earlier one (see
  Findings). So on colliding groups the method returns, and
  `IdentifyOutlierExperiments` then flags, a group the source discards.
  The dictionary as the source builds it is `OutlierAnalysis.ResultsDict`,
  over `OutlierAnalysis.GroupKeyString`.
- `min_points` is a natural number (`FractureConfig.minPoints: nat`). With a
  negative value the source's scan runs past the last point. It returns the
  first drop if one comes before the end. Otherwise `stress[len(stress)]`
  raises `IndexError`, which `extract_stress_strain_data` does not catch
  and `fit_polynomial_to_experiment` turns into `None`. That path is not
  modelled.
- The trimmed slice is half-open (`stress[zero_idx:fracture_idx]`), so the
  fracture point itself is not kept. The model follows the code, not the
  documentation, which describes the trimmed range as inclusive.
- `extract_stress_strain_data` and `fit_polynomial_to_experiment` catch
  `KeyError`, `TypeError` and `ValueError` from malformed experiment
  dictionaries. The model takes already-typed values, so a missing level or
  list is the empty one. Only the raising cases that remain are modelled: an
  empty slice and a failed fit.

## Findings

| source | as written | input that shows it | evidently intended | confidence | as-written member | corrected member |
|---|---|---|---|---|---|---|
| src/python/analyse_outliers.py:335 | each group is filed in `results` under the string `f"{family}_{name}_{subsampletype}"`, and a later group with the same string overwrites an earlier one | the groups (`A`, `B C_D`, `E`) and (`A`, `B C`, `D_E`) both become `A_B C_D_E`; a missing family and the family `nan` both become `nan_…` | one results entry per distinct (family, name, subsampletype) group of at least two rows | not executed; holds whenever a field contains `_` or is the string `nan` | `OutlierAnalysis.GroupKeyStringCollides` | `OutlierGrouping.AnalyzeAllGroups` |
