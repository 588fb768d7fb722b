# Embargo 2022a trial-table conversion, modelled in Dafny

This project models `Embargo22ABehaviorInterface.run_conversion`. The
method reads one session's MATLAB trial record (`TS`) and writes its trials
to the trial table of an NWB file. Here the whole method is one pure
function, `BehaviorInterface.Convert`. Its inputs are the parts of the
header it reads and the trial table. It returns the column names registered
with `add_trial_column` and one dictionary per trial as passed to
`add_trial`, or the first failure.

The steps, each a module:

- `Lookups`: the header lookups of lines 34-41.
  - The `OUTCOME` dictionary is inverted from number to label.
  - `TypeCond` codes map to the descriptions blank, target and
    visual_stimulus, keyed by the 1-based condition number.
- `Cleaning`: the chain of lines 56-68.
  - `-1` becomes missing.
  - All-missing columns are dropped.
  - Rows are sorted by `TrialNum`.
  - `TrialNum` and the eight nested-structure columns are dropped.
  - Columns with a single distinct value are removed.
- `Translation`: `Outcome` becomes the lower-cased outcome label, and a new
  `condition type` column is added (lines 71-74).
- `Timing`: the time columns are scaled to seconds (lines 77-79). Then the
  columns are reordered: time columns by mean offset from `TimeTrialStart`,
  then the rest alphabetically (lines 82-93).
- `Emission`: the rename to `start_time`/`stop_time`, the registered column
  names, and the row dictionaries (lines 96-104).
- `BehaviorInterface`: the steps composed. It also holds the end-to-end
  lemmas. Row `i` of the table before the rename is input row `p[i]`, for a
  permutation `p` that puts the trial numbers in ascending order. Every
  entry is carried from that row with the sentinel read as missing, time
  columns in seconds, and the two code columns replaced by their labels.
  The same holds for trial `i` of the file, each entry under its renamed
  label, when the input has no `start_time` or `stop_time` column of its
  own. With such a column, `to_dict` at line 103 keeps only one of the two
  entries that share a name.

Supporting modules:

- `Results`: `Option`/`Result` and the error kinds.
  - `MissingColumn` stands for pandas' `KeyError` on a column, or the
    `AttributeError` of the attribute access `df_trial_data.TimeTrialStart`
    at line 82.
  - `UnknownCode` stands for a `KeyError` in a lookup.
  - `NotNumeric` stands for a `TypeError` on text.
  - `UnknownConditionType` stands for a `KeyError` on a `TypeCond` code.
- `Cells`: the cell values.
- `Tables`: a column-keyed table with distinct names and equal-height columns.
- `KeySort`, `Text`: sorting by optional real keys, and strings.
- `Dicts`: a Python dictionary built from pairs, where the later pair wins.

The table is column-major: an ordered list of distinct labels, a map from
label to `seq<Option<Cell>>`, and a height. `None` is NaN. Numbers are
exact `real`s, so milliseconds to seconds and the means are exact.

Line 100 registers the column set taken at line 88, before the rename of
lines 96-99, while line 104 passes each row under the new names. So
`TimeTrialStart` is registered and `start_time` is not. The model keeps this
as written (`Emission.Emit`, `BehaviorInterface.Convert`).

When every trial has the same outcome, line 58 (all outcomes `-1` or
missing) or lines 65-68 (one value) drop `Outcome`, and line 71 then fails
on the missing column
(`BehaviorInterface.ConstantOutcomeFails`). The same holds for `CurrCond`,
and a table with a single trial always fails this way. The model keeps this
behaviour as written.

## Model

| member | source | states |
|---|---|---|
| Lookups.InvertOutcomes | src/seidemann_lab_to_nwb/embargo22a/embargo22abehaviorinterface.py:36 | The inverted dictionary's keys are exactly the outcome numbers. A number that no later pair reuses maps to its own label, so on a clash the later label wins. |
| Lookups.InvertOutcomesIsInverse | src/seidemann_lab_to_nwb/embargo22a/embargo22abehaviorinterface.py:36 | With distinct numbers the inversion is exact. Every label is found under its number, and every number leads back to a pair of `OUTCOME`. |
| Lookups.ConditionTypesFrom | src/seidemann_lab_to_nwb/embargo22a/embargo22abehaviorinterface.py:38-40 | Succeeds iff every `TypeCond` code is 0, 1 or 2, and then gives each code's description in order. Otherwise it fails at the first unknown code. |
| Lookups.ConditionMap | src/seidemann_lab_to_nwb/embargo22a/embargo22abehaviorinterface.py:41 | The keys are exactly 1..n, and key `c` holds description `c - 1`. |
| Lookups.BuildLookups | src/seidemann_lab_to_nwb/embargo22a/embargo22abehaviorinterface.py:34-41 | Fails iff some `TypeCond` code has no description. It reports the first such code: that code is unknown and every earlier one is known. On success, the outcome lookup is the inverted `OUTCOME`, and condition `c` maps to the description of `TypeCond[c - 1]` for exactly `c` in 1..n. |
| Cleaning.ReplaceSentinel | src/seidemann_lab_to_nwb/embargo22a/embargo22abehaviorinterface.py:57 | No entry is `-1` afterwards. An entry is missing iff it was missing or `-1`, and every other entry is unchanged. |
| Cleaning.DropAllMissing | src/seidemann_lab_to_nwb/embargo22a/embargo22abehaviorinterface.py:58 | Exactly the columns without a present entry are removed. The kept columns are unchanged. |
| Cleaning.FirstText | src/seidemann_lab_to_nwb/embargo22a/embargo22abehaviorinterface.py:59 | Finds a text entry iff the column has one. The row found holds text and no earlier row does. |
| Cleaning.SortByTrialNum | src/seidemann_lab_to_nwb/embargo22a/embargo22abehaviorinterface.py:59 | A missing `TrialNum` is a `KeyError`. Text in it is an error iff some entry is text. Otherwise the rows are a permutation of the input rows, with trial numbers ascending and missing last. |
| Cleaning.DropNested | src/seidemann_lab_to_nwb/embargo22a/embargo22abehaviorinterface.py:46-61 | Fails with `MissingColumn` iff `TrialNum` or one of the eight structure columns is absent. Otherwise the columns kept are exactly the others, unchanged. |
| Cleaning.DropNestedIsOneDrop | src/seidemann_lab_to_nwb/embargo22a/embargo22abehaviorinterface.py:46-61 | The two drops of lines 60 and 61 together are one drop of `TrialNum` and the structure columns: the same failure, naming the same column, and the same table on success. |
| Cleaning.Clean | src/seidemann_lab_to_nwb/embargo22a/embargo22abehaviorinterface.py:56-62 | Succeeds iff `TrialNum` holds an entry that is neither missing nor `-1` and holds no text, and every structure column holds such an entry. Otherwise line 59 or 61 raises a `KeyError` (the column absent, or dropped at line 58) or line 59 a `TypeError`. On success: no row is lost; the columns kept are exactly the input columns other than `TrialNum` and the structure columns that hold an entry that is neither missing nor `-1`; no entry is `-1`; no column is all-missing; the input had a row. Row `i` is input row `p[i]` for a permutation `p` along which the trial numbers ascend. |
| Cleaning.SingleValuedIff | src/seidemann_lab_to_nwb/embargo22a/embargo22abehaviorinterface.py:66 | `len(unique()) == 1`, with missing counted as a value, holds iff the column is non-empty and all its entries are equal. |
| Cleaning.DropSingleValued | src/seidemann_lab_to_nwb/embargo22a/embargo22abehaviorinterface.py:65-68 | Exactly the single-valued columns are removed, and the rest are unchanged. Each kept column of a non-empty table has two rows that differ. |
| Translation.RelabelFrom | src/seidemann_lab_to_nwb/embargo22a/embargo22abehaviorinterface.py:71-74 | Succeeds iff every code is a whole number with a label, giving each row its code's label. Otherwise it fails at the first unknown code. |
| Translation.LowerLabels | src/seidemann_lab_to_nwb/embargo22a/embargo22abehaviorinterface.py:71 | Every outcome label lower-cased, with the same numbers. |
| Translation.Translate | src/seidemann_lab_to_nwb/embargo22a/embargo22abehaviorinterface.py:71-74 | Succeeds iff `Outcome` and `CurrCond` exist and every code in them is known. `Outcome` becomes the lower-cased label and `condition type` the description. Every other column is unchanged, and a missing `Outcome` is a `KeyError`. |
| Text.Contains | src/seidemann_lab_to_nwb/embargo22a/embargo22abehaviorinterface.py:77 | Python's substring test: true iff the pattern occurs at some position. |
| Text.Lower | src/seidemann_lab_to_nwb/embargo22a/embargo22abehaviorinterface.py:71 | Same length. No capital is left, capitals become their small letters, and all else is unchanged. |
| Text.LexLeTotal | src/seidemann_lab_to_nwb/embargo22a/embargo22abehaviorinterface.py:90 | Python's string order is total. |
| Text.LexLeTransitive | src/seidemann_lab_to_nwb/embargo22a/embargo22abehaviorinterface.py:90 | Python's string order is transitive. |
| Text.LexLeAntisymmetric | src/seidemann_lab_to_nwb/embargo22a/embargo22abehaviorinterface.py:90 | Python's string order is antisymmetric. |
| Text.SortNames | src/seidemann_lab_to_nwb/embargo22a/embargo22abehaviorinterface.py:89-90 | `list.sort()` on names: a permutation of the input in ascending order. |
| KeySort.SortBy | src/seidemann_lab_to_nwb/embargo22a/embargo22abehaviorinterface.py:83 | `sort_values()` on optional keys: a permutation of the input, ascending by key with missing last. |
| Timing.ScaleFrom | src/seidemann_lab_to_nwb/embargo22a/embargo22abehaviorinterface.py:79 | Dividing a column by 1000 succeeds iff it holds no text. Each output number times 1000 is the input number, and missing stays missing. |
| Timing.ScaleEachStep | src/seidemann_lab_to_nwb/embargo22a/embargo22abehaviorinterface.py:78-79 | Scaling the first listed column and then the rest scales every listed column and leaves the others unchanged. |
| Timing.ScaleTimes | src/seidemann_lab_to_nwb/embargo22a/embargo22abehaviorinterface.py:77-79 | Succeeds iff no time column holds text. Exactly the columns naming "Time" but not "Now" are in seconds, and every other column is unchanged. |
| Timing.MeanBetween | src/seidemann_lab_to_nwb/embargo22a/embargo22abehaviorinterface.py:82-83 | A mean lies between any bounds of its values. |
| Timing.StartOffsetIsZero | src/seidemann_lab_to_nwb/embargo22a/embargo22abehaviorinterface.py:82-83 | `TimeTrialStart`'s own mean offset is zero, or undefined when it is never recorded. |
| Timing.OrderColumns | src/seidemann_lab_to_nwb/embargo22a/embargo22abehaviorinterface.py:82-93 | A missing `TimeTrialStart` is an error. Otherwise the labels are a permutation with the same columns. Time columns come first, ascending by mean offset from the trial start with undefined means last, and the rest follow alphabetically. |
| Tables.FilterPartition | src/seidemann_lab_to_nwb/embargo22a/embargo22abehaviorinterface.py:77-89 | The time columns together with the non-time columns are exactly all the columns, as a multiset. |
| Tables.Drop | src/seidemann_lab_to_nwb/embargo22a/embargo22abehaviorinterface.py:60-61 | `drop(columns=...)` fails iff some listed label is absent, naming it. Otherwise exactly the unlisted columns stay, unchanged. |
| Dicts.LastWins | src/seidemann_lab_to_nwb/embargo22a/embargo22abehaviorinterface.py:36 | A dictionary built from pairs has exactly the pairs' keys, and each key holds the value of its last pair. |
| Emission.RenameCleanIff | src/seidemann_lab_to_nwb/embargo22a/embargo22abehaviorinterface.py:96-99 | The rename keeps all labels apart iff the table does not already hold `start_time` beside `TimeTrialStart`, or `stop_time` beside `TimeTrialEnd`. |
| Emission.RowOf | src/seidemann_lab_to_nwb/embargo22a/embargo22abehaviorinterface.py:103 | A row's dictionary has exactly the renamed labels as keys. Each key holds the entry of the last column renamed to it. |
| Emission.Emit | src/seidemann_lab_to_nwb/embargo22a/embargo22abehaviorinterface.py:96-104 | One dictionary per row, in row order, keyed by the renamed labels. The registered names are the pre-rename columns. With a clean rename, each dictionary holds every column's entry under its new name. |
| BehaviorInterface.Label | src/seidemann_lab_to_nwb/embargo22a/embargo22abehaviorinterface.py:64-74 | Succeeds iff `Outcome` and `CurrCond` exist, are not single-valued and hold known codes. On success: the columns are exactly `condition type` and the multi-valued input columns, the latter unchanged apart from `Outcome`; each row holds its outcome label and condition type; a non-empty table has at least two rows; a table with no all-missing column stays so. |
| BehaviorInterface.Arrange | src/seidemann_lab_to_nwb/embargo22a/embargo22abehaviorinterface.py:77-93 | Succeeds iff `TimeTrialStart` exists and no time column holds text. The columns are the same, time columns are in seconds and the rest unchanged, and the order is the final column order. |
| BehaviorInterface.Prepare | src/seidemann_lab_to_nwb/embargo22a/embargo22abehaviorinterface.py:34-74 | Succeeds iff every `TypeCond` code is known, cleaning succeeds, `Outcome` and `CurrCond` survive (their entries, with `-1` read as missing, are not all equal) and every code in them, with `-1` read as missing, has a label. On success, no row is lost and there are at least two trials. The columns are exactly `condition type` and the input columns other than `TrialNum` and the structure columns whose entries, with `-1` read as missing, are not all equal. No column is all-missing. |
| BehaviorInterface.Reconstruct | src/seidemann_lab_to_nwb/embargo22a/embargo22abehaviorinterface.py:34-93 | Succeeds iff `Prepare` does, `TimeTrialStart` survives, and no surviving time column holds text. On success, the table before the rename: the same number of rows, in the same order, and exactly the same columns as `Prepare`, with `TimeTrialStart` present and the columns in their final order. |
| BehaviorInterface.ReconstructTraced | src/seidemann_lab_to_nwb/embargo22a/embargo22abehaviorinterface.py:56-93 | Row `i` of the result is input row `p[i]`, with trial numbers ascending along `p`. The outcome and condition codes are replaced by their labels, and every other entry is carried with `-1` as missing and time columns in seconds. |
| BehaviorInterface.ConstantColumnsDropped | src/seidemann_lab_to_nwb/embargo22a/embargo22abehaviorinterface.py:64-68 | An input column whose entries all agree, with `-1` read as missing, is absent from the result. |
| BehaviorInterface.CleanedVariesIff | src/seidemann_lab_to_nwb/embargo22a/embargo22abehaviorinterface.py:56-66 | Cleaning only rearranges rows, so a cleaned column is single-valued exactly when the input column's entries, with `-1` read as missing, are all equal. |
| BehaviorInterface.ConstantOutcomeFails | src/seidemann_lab_to_nwb/embargo22a/embargo22abehaviorinterface.py:56-71 | When every trial has the same outcome, the conversion fails: the column is dropped at line 58 or at lines 65-68, and line 71 then raises a `KeyError`. |
| BehaviorInterface.Convert | src/seidemann_lab_to_nwb/embargo22a/embargo22abehaviorinterface.py:25-104 | Succeeds exactly when `Reconstruct` does (every failure the model covers is at one of lines 40, 59, 61, 71, 73, 79 or 82). On success: one dictionary per input trial, and at least two trials. The registered names are exactly `condition type` and the input columns other than `TrialNum` and the structure columns whose entries, with `-1` read as missing, are not all equal; they include `TimeTrialStart` and `Outcome`. Each row has `start_time` and no old time-column name. |
| BehaviorInterface.EmitKeys | src/seidemann_lab_to_nwb/embargo22a/embargo22abehaviorinterface.py:96-104 | Every emitted row has a `start_time` key, and none has `TimeTrialStart` or `TimeTrialEnd`. |
| BehaviorInterface.ConvertTraced | src/seidemann_lab_to_nwb/embargo22a/embargo22abehaviorinterface.py:56-104 | When the input has no `start_time`/`stop_time` column of its own, trial `i` of the file is input row `p[i]`, in trial-number order. Its `Outcome` is that row's lower-cased outcome label, its `condition type` is the description of its `CurrCond`, and its `start_time` is its `TimeTrialStart` in seconds. Every other surviving column's entry is under its renamed label, with `-1` read as missing and time columns in seconds. |

## Left out

- Reading the `.mat` file (lines 27-31): the hard-coded file name, path
  handling and `read_mat` are I/O. The model starts from the parsed `Header`
  and trial table.
- The NWB calls `add_trial_column` and `add_trial` (lines 100-104) belong to
  a foreign library. The model returns what they would receive: the
  registered column names and the row dictionaries.
- Header shape errors: a header without `DEF`, `OUTCOME`, `Conditions` or
  `TypeCond` fails in Python. The `Header` datatype always has those parts.
- Floating point: seconds and means are exact reals. NaN arithmetic is
  modelled only as "missing" entries, which the mean skips.
- Timing.OrderColumns: does not fix the order of time columns with equal
  mean offsets, nor of columns without a mean. pandas' default sort is not
  stable, so the model promises only a permutation in ascending order.
- Cleaning.SortByTrialNum: does not fix the order of rows with equal or
  missing trial numbers, for the same reason.
- Cleaning.SortByTrialNum: treats text in `TrialNum` as an error. pandas
  would sort a column holding only text, but a text trial number is not
  part of the trial record's schema.
- Text.Lower: lower-cases ASCII letters only. Python's `str.lower` also maps
  non-ASCII capitals.
- Text.LexLeTotal, Text.SortNames: compare characters by code point, as
  Python does for `str`. Locale collation is not involved.
- Cleaning.DropSingleValued: keeps the surviving columns in their original
  order. Selecting with a `set` at line 68 leaves the order
  implementation-defined, and the final order is fixed later by lines
  82-93. Newer pandas versions refuse a `set` indexer altogether.
- Entries are scalars only: a number or a string. The eight structure
  columns hold nested MATLAB structs in the trial record; the model stands
  them in with scalar placeholders. A placeholder can be `-1` or missing,
  which a real struct column never is, so the model can reach the drop at
  line 58 followed by a `KeyError` at line 61, which the program cannot.
  Non-scalar entries in other columns are not modelled either, and neither is
  the `TypeError` that `unique()` at line 66 raises on an unhashable array
  entry.
- `get_metadata`, `__init__` and every other file of the repository are not
  part of this model.
