# mf4_ai_importer: the decision logic of `Data`, in Dafny

This project models the pure decision logic of the `Data` class of
mf4_ai_importer (`src/mf4_ai_importer/data.py`). `Data` turns directories of
MF4 bus recordings into a pandas training table for one target signal. It
proves what that logic guarantees. The model keeps the Python behaviour,
including its edge cases. The MF4 library (asammdf), the file system and
pandas' numeric dtypes are replaced by inputs and an abstract value type.

The project covers four pieces.

- **Session grouping** (`FileGrouping`). The comma-separated directory list is
  split and stripped. Each file's base name is cut at the first `#` to give
  its session key. Paths collect per key with set-style deduplication. The
  dictionary is then sorted by key.
- **Blacklist** (`Signals`). `__create_blacklist` reads the stripped lines of
  the blacklist file. The filter in `__read_bus_files` removes exactly the
  blacklisted names from a file's signal list and keeps the order.
- **Signal list** (`Signals`). `__create_signallist` and `__calc_signallist`
  work in two modes:
  - directory mode: the first column of the last `*.txt` file whose stem is
    the target;
  - fallback mode: `[target]` when the target is among the accumulated
    signal names.
- **Merge and split** (`Tables`, `Pipeline`). `__load_files` and
  `import_data` do the following.
  - Each session table is tagged with a `file` column.
  - The fewer-than-two-sessions guard runs next.
  - Sessions are joined inner (intersection of labels) or outer (union).
  - The joined table is zero-filled and its columns sorted.
  - Finally the columns are split into target columns and feature columns.
  - In the feature-engineering branch, sessions are outer-joined instead
    and every single-valued column other than `file` and the `I_…`
    columns is dropped.

Support modules:

- `Strings`: Python's `str.split`, `str.strip`, POSIX `os.path.basename` and
  code-point string order.
- `Sorting`: `sorted` with distinct keys.
- `Options`: an optional value.

A table (`Tables.Table`) is a list of column labels plus rows. Each row maps
labels to cells. A cell is `Missing` (NaN), `Num(v)` for a value of the
abstract type `V`, or `Text(s)` (the `file` column). `__load_files` returns
one of five outcomes (`Pipeline.LoadResult`):

- the guard's bare `None`;
- the exception of `pd.concat([])`;
- the single feature-engineering frame;
- `(None, None)`;
- the pair of target and feature frames.

## Model

| member | source | states |
|---|---|---|
| Strings.Split | src/mf4_ai_importer/data.py:225 | `str.split(sep)` returns at least one piece, no piece contains the separator, and the first piece is the text before the first separator |
| Strings.JoinSplit | src/mf4_ai_importer/data.py:225 | joining the pieces of a split with the separator gives back the original string |
| Strings.Strip | src/mf4_ai_importer/data.py:227 | `str.strip()` returns a contiguous slice of the input with only white space around it, and the slice neither starts nor ends with white space |
| Strings.SplitFree | src/mf4_ai_importer/data.py:225 | a string without the separator splits into itself alone |
| Strings.SplitAt | src/mf4_ai_importer/data.py:225 | splitting `x + sep + y` with `x` separator-free gives `x` followed by the pieces of `y` |
| Strings.StripLeadingSpace | src/mf4_ai_importer/data.py:227 | a leading white-space character does not change the stripped result |
| Strings.StripIdempotent | src/mf4_ai_importer/data.py:227 | stripping a stripped string changes nothing |
| Strings.BaseNameSpec | src/mf4_ai_importer/data.py:235 | `os.path.basename` gives the longest suffix without `/`, and the character before it is `/` |
| Strings.Filter | src/mf4_ai_importer/data.py:430-432 | a list comprehension with a condition keeps, in order, exactly the elements satisfying the condition, each as often as in the input |
| Strings.FilterDetermined | src/mf4_ai_importer/data.py:430-432 | any subsequence with those element counts is the comprehension's result |
| Strings.LessTotal | src/mf4_ai_importer/data.py:243 | Python's string order compares any two different strings one way or the other |
| Strings.LessTransitive | src/mf4_ai_importer/data.py:243 | Python's string order is transitive |
| Sorting.SortBy | src/mf4_ai_importer/data.py:243 | `sorted` by distinct keys gives the same elements in strictly ascending key order |
| Sorting.SortedUnique | src/mf4_ai_importer/data.py:243 | two strictly sorted lists with the same elements are equal, so the sorted dictionary does not depend on insertion order |
| FileGrouping.SessionKey | src/mf4_ai_importer/data.py:235 | the key is the base name up to, not including, the first `#`; it never contains `#`; without `#` it is the whole base name, extension included |
| FileGrouping.Put | src/mf4_ai_importer/data.py:236-239 | adding a path to its key's group adds the key if it was new, adds the path to that group only, and keeps the positions of existing keys |
| FileGrouping.AddPaths | src/mf4_ai_importer/data.py:233-239 | after the loop, each key's group is its old group plus the scanned paths with that key, and the keys are the old ones plus the scanned keys |
| FileGrouping.Dirs | src/mf4_ai_importer/data.py:225-227 | the directory list has one entry per comma-separated piece of `filedir` (at least one), and entry `i` is piece `i` stripped |
| FileGrouping.DirsStripped | src/mf4_ai_importer/data.py:225-227 | every directory entry is comma-free and already stripped |
| FileGrouping.DirsFree | src/mf4_ai_importer/data.py:225-227 | a comma-free `filedir` names exactly one directory, itself stripped |
| FileGrouping.DirsAppend | src/mf4_ai_importer/data.py:225-227 | `x,y` with comma-free `x` names `x` stripped, then the directories of `y` |
| FileGrouping.Scanned | src/mf4_ai_importer/data.py:226-231 | a path is scanned exactly when one of the listed directories yields it |
| FileGrouping.GenerateMf4FileDict | src/mf4_ai_importer/data.py:221-243 | the resulting dictionary is sorted by key, has unique keys, and maps each key to its previous paths plus the newly scanned paths of that key |
| FileGrouping.GroupingPlacesEveryPath | src/mf4_ai_importer/data.py:233-243 | every scanned path lies in the group of its own key; every group holds only paths of its key; keys iterate in ascending order |
| FileGrouping.GroupsKeepTheirKey | src/mf4_ai_importer/data.py:233-243 | if every existing group holds only paths of its key, so does every group after the scan |
| FileGrouping.GenerateIdempotent | src/mf4_ai_importer/data.py:221-243 | running the grouping again on the same instance leaves the dictionary unchanged |
| FileGrouping.SameDirectoriesSameDict | src/mf4_ai_importer/data.py:225-243 | two directory lists naming the same directories give the same dictionary |
| FileGrouping.DirsTwice | src/mf4_ai_importer/data.py:225-227 | for any comma-free, stripped name `a`, `"a, a"` names directory `a` twice |
| FileGrouping.DirsOnce | src/mf4_ai_importer/data.py:225-227 | for any comma-free, stripped name `a`, `"a"` names directory `a` once |
| FileGrouping.RepeatedDirectoryChangesNothing | src/mf4_ai_importer/data.py:225-243 | for any comma-free, stripped name `a`, listing it as `"a, a"` gives the same dictionary as listing it once |
| Signals.CreateBlacklist | src/mf4_ai_importer/data.py:116-126 | no configured name, or a name that is not a file, gives an empty blacklist; otherwise entry `i` is line `i` stripped, one entry per line, empty lines and duplicates included |
| Signals.FilterSignals | src/mf4_ai_importer/data.py:427-433 | the result keeps the input order, removes exactly the blacklisted names and keeps every other occurrence; a missing or empty blacklist is the identity |
| Signals.FilterSignalsDetermined | src/mf4_ai_importer/data.py:427-433 | the filter's result is the only order-preserving selection with those counts |
| Signals.NameStem | src/mf4_ai_importer/data.py:143 | `Path.stem` is a prefix of the name; when it is shorter, the name continues with a `.` that is neither first nor last; when such a `.` exists, the cut is at the last `.` |
| Signals.StemOfTxtFile | src/mf4_ai_importer/data.py:140-144 | a globbed `<x>.txt` with non-empty `x` has stem `x` |
| Signals.CalcSignalList | src/mf4_ai_importer/data.py:195-219 | the entry for the stem is set to the file's signals in directory mode and to `[stem]` otherwise; every other entry is unchanged |
| Signals.ScanStems | src/mf4_ai_importer/data.py:141-155 | scanning the files adds the target exactly when some stem matches; the last matching file's signals win; other entries are unchanged |
| Signals.ScanTargetFiles | src/mf4_ai_importer/data.py:140-155 | the same, stated for the files' paths through their stems |
| Signals.CreateSignalList | src/mf4_ai_importer/data.py:131-190 | the only possible key is the target. Without a target directory it is present exactly when the names contain it, with value `[target]`. With one, it is present exactly when a stem matches, with the last match's signals |
| Signals.FeatureImportanceInert | src/mf4_ai_importer/data.py:131-133 | `fi_signalnumber` and `fi_signalthreshold` never change the signal list |
| Tables.FillNa | src/mf4_ai_importer/data.py:303 | `fillna(0)` leaves no missing cell, keeps the shape and every present value, and turns every NaN into zero |
| Tables.FillNaIdempotent | src/mf4_ai_importer/data.py:372 | filling twice is filling once |
| Tables.SetColumn | src/mf4_ai_importer/data.py:306 | `df["file"] = key` adds the column (or overwrites it in place), sets it in every row and leaves every other cell alone |
| Tables.UnionColumns | src/mf4_ai_importer/data.py:342 | an outer join's labels are exactly those of some table, without repetition, and the first table's labels come first in their own order |
| Tables.IntersectColumns | src/mf4_ai_importer/data.py:357-359 | an inner join's labels are exactly those of every table, without repetition |
| Tables.Concat | src/mf4_ai_importer/data.py:357-359 | the joined table has unique labels, the union or intersection of the tables' labels, and the sum of their row counts |
| Tables.ConcatRowOf | src/mf4_ai_importer/data.py:357-359 | row `j` of table `i` becomes row `offset(i) + j` of the join; a label the table lacks reads NaN there |
| Tables.SortColumns | src/mf4_ai_importer/data.py:381 | `reindex(sorted(columns))` orders the labels strictly ascending, keeps the same labels and leaves the rows untouched |
| Tables.Select | src/mf4_ai_importer/data.py:401 | `df[cols]` has exactly the listed labels in list order and copies their cells |
| Tables.Drop | src/mf4_ai_importer/data.py:403-405 | `drop(columns=...)` keeps the other labels in order and copies their cells |
| Tables.DropConstantColumns | src/mf4_ai_importer/data.py:344-352 | a column is dropped exactly when it has at most one distinct value, is not `file` and does not start with `I_`; the rest keep their order and cells |
| Pipeline.Tag | src/mf4_ai_importer/data.py:284-306 | a session table gains `file` set to the session key in every row; without feature engineering NaN is zero first, so no cell is missing |
| Pipeline.Sessions | src/mf4_ai_importer/data.py:271-317 | one tagged table per dictionary entry, in dictionary order, each with its entry's key in `file` |
| Pipeline.SessionColumns | src/mf4_ai_importer/data.py:306-312 | a label is in some session table exactly when it is `file` or in some stacked table; likewise for every session table |
| Pipeline.Accumulated | src/mf4_ai_importer/data.py:312 | the accumulated names are exactly the labels of some session table |
| Pipeline.Combine | src/mf4_ai_importer/data.py:357-381 | the default merge has unique, strictly ascending labels and no missing cell. Its labels are the union (outer) or intersection (inner) of the session labels, and its rows are all session rows |
| Pipeline.CombinedCell | src/mf4_ai_importer/data.py:357-381 | a session row lands at its offset; each combined column holds the session's cell (NaN as zero) or zero where the session lacks it |
| Pipeline.FilledJoinCell | src/mf4_ai_importer/data.py:357-372 | after `fillna(0)` of the join, a session row at its offset holds the session's cell (NaN as zero) or zero where the session lacks the label |
| Pipeline.FileSurvivesJoin | src/mf4_ai_importer/data.py:306 | `file` is in every session, so both joins keep it |
| Pipeline.CombinedColumns | src/mf4_ai_importer/data.py:357-359 | the combined labels are `file` plus the labels some (outer) or every (inner) stacked table has |
| Pipeline.RowsInKeyOrder | src/mf4_ai_importer/data.py:315 | the combined rows come in ascending session-key order: reading down `file` never goes back |
| Pipeline.SplitTarget | src/mf4_ai_importer/data.py:397-409 | the listed signals present are the targets, in list order and with repetitions. Features are all other labels except `file`, in table order. The two are disjoint and, with `file`, cover the table. No listed signal present gives `(None, None)` |
| Pipeline.SplitTargetColumns | src/mf4_ai_importer/data.py:397-399 | the target labels are the filter of the signal list by the table's labels |
| Pipeline.SplitKeepsCells | src/mf4_ai_importer/data.py:401-405 | target and feature frames copy the combined table's cells row by row |
| Pipeline.ResolveSignals | src/mf4_ai_importer/data.py:385-392 | a non-empty caller dictionary is used as is; an empty one is replaced by the created list, whose only key is the target. Without a target directory the target is present iff the accumulated names hold it, with `[target]`; with one, iff some `*.txt` stem equals the target, with the last such file's first column |
| Pipeline.SplitFor | src/mf4_ai_importer/data.py:394-412 | a split happens exactly when the target has a list and some listed signal is present. The target columns are then the listed signals filtered by the table's labels; features exclude `file`, and targets, features and `file` cover the table |
| Pipeline.EngineerFeatures | src/mf4_ai_importer/data.py:342-352 | the feature-engineering frame keeps exactly the outer-joined labels that are not uninformative, in join order, with their cells |
| Pipeline.LoadEngineered | src/mf4_ai_importer/data.py:327-355 | the feature-engineering frame keeps a label exactly when it is `file` or in some stacked table and is not single-valued in the outer join (`file` and `I_` labels never drop); it has one row per stacked row, each cell copied from the join |
| Pipeline.LoadDefault | src/mf4_ai_importer/data.py:356-415 | a split happens exactly when the resolved list has the target and one of its signals is `file` or in some (outer) or every (inner) stacked table; the target columns are that list filtered the same way; features exclude `file` and are sorted; targets, features and `file` are exactly the joined labels |
| Pipeline.LoadFiles | src/mf4_ai_importer/data.py:322-325 | fewer than two sessions without file analysis gives the bare `None` before any join; no sessions with file analysis fails in the join; otherwise the branch decides between one frame and a split or `(None, None)` |
| Pipeline.FallbackList | src/mf4_ai_importer/data.py:385-392 | without a caller list or target directory, the target gets the list `[target]` exactly when it is `file` or in some stacked table |
| Pipeline.FallbackSplit | src/mf4_ai_importer/data.py:385-409 | without a caller list or target directory, the default merge splits exactly when the target survives the join, and then `[target]` is the target column list |
| Pipeline.InnerJoinLosesPartialTarget | src/mf4_ai_importer/data.py:385-409 | without a target directory, an inner join over sessions where only some have the target yields `(None, None)`, because the fallback resolves the target against the union |
| Pipeline.OuterJoinFindsTarget | src/mf4_ai_importer/data.py:385-401 | without a target directory, an outer join over sessions where some have the target splits with the target as the only target column |
| Pipeline.ImportData | src/mf4_ai_importer/data.py:81-111 | `import_data` unpacks a pair exactly when there are at least two sessions and no feature engineering; the two halves are both `None` or both frames. They are frames exactly when the created signal list has the target and one of its signals survives the join; the target columns are then that list filtered by the join; features exclude `file`, are sorted, are disjoint from the targets and with them and `file` cover the joined labels |

## Left out

- Everything asammdf does is an input:
  - opening MF4 files;
  - `search("*")`;
  - `filter`;
  - `MDF.stack`;
  - `to_dataframe` with raster resampling.

  The stacked table of each session is given as a well-formed table, one per
  dictionary entry. So the blacklist filter is modelled on a file's signal
  list, but its link to the table columns is not.
- File-system access is an input:
  - globbing `*.MF4`/`*.mf4` per directory (a map from directory to paths);
  - the blacklist file (its lines, or none);
  - the `*.txt` files of the target directory (path plus first column).

  Which paths a glob returns, and in which order, is not modelled.
- Signals.CreateSignalList: `pd.read_csv(sep=" ", usecols=[0])` may parse a
  numeric first column as numbers. The model takes the first column as
  strings.
- Logging, timing, `print` and the logfile set-up at import time are left
  out. They are side effects only.
- The UTF-8 decoding and categorical conversion of non-numeric columns in the
  feature-engineering branch (data.py:329-340) are left out. They are pandas
  dtype mechanics. They do not add or remove labels, but decoding can raise
  on bytes that are not UTF-8 and can turn cells into NaN. That can change
  how many distinct values a column has, and so whether the single-value
  rule (data.py:343-352) drops it. The model's
  `Pipeline.LoadEngineered` counts distinct values before any decoding.
- Paths and column labels are Dafny strings, sequences of Unicode scalar
  values. On POSIX, `glob.glob` (data.py:230-231) hands a file name whose
  bytes are not UTF-8 to `os.path.basename`, `split("#")` and `sorted`
  (data.py:235, 243) as a `str` with lone surrogates (`surrogateescape`).
  Such surrogate-escaped names are outside the model.
- Strings.BaseName: it models `os.path.basename` on POSIX only; Windows `\`
  separators and drive letters are not modelled.
- Floating-point and NaN semantics are abstract: cells hold a value of type
  `V` with equality and a given zero. `unique()` counts NaN as one value.
- The `modellib` branch is left out: every group is skipped, and the later
  `pd.concat([])` raises.
- The `is_ethernet` code is left out: the flag is never set.
- The frame index (time stamps) is left out.
- `src/mf4_ai_importer/main.py` is left out. It is argument parsing only.
- Pipeline.ImportData: on the guard's `None` and on the single
  feature-engineering frame, `import_data` unpacks a value that is not a
  pair. The model returns `NotAPair` with the load result and claims nothing
  more about those runs.
- Tables.Concat: pandas raises on duplicate labels, so every input table
  must have unique labels. The model also assumes the frame invariant that
  every row has every column.
- Pipeline.LoadFiles: its own contract covers every number of sessions,
  zero included (the guard's `None` without file analysis, the failing
  join with it). Its column-level guarantees live in `LoadEngineered` and
  `LoadDefault`, which need at least one session.

## Notes on the code

- `__create_blacklist` keeps empty stripped lines and duplicates
  (data.py:123-125).
- The signal-list mode depends only on whether `self.targetdir` is truthy
  (data.py:137, 206). The model gives the target directory as an `Option`;
  `None` and an empty string both mean not configured.
- When the signal list names `file`, `file` becomes a target column, and
  the features drop it anyway, so it is never a feature (data.py:397-405).
- `feature_engineering` is tested only with `is not None` (data.py:285,
  327). The model's `featureEngineering: bool` is `true` exactly when the
  argument is not `None`, so passing `False` runs the feature-engineering
  branch.
