# DataUtils in Dafny

A Dafny model of the data utilities of the RDKit machine-learning package,
`Python/ML/Data/DataUtils.py`. It covers:

- **The `.qdat` format for quantized data sets.**
  - `WriteData` writes a header, a variable table of names and quantization bounds, and one line per data point.
  - `ReadVars` reads the variable table back.
  - `ReadQuantExamples` reads the data lines back.
- **`TakeEnsemble`.** It picks the members of an ensemble out of a plain vector or out of a data vector.
- **`CountResults`.** It builds a histogram of one column, of either raw values or bins.
- **`CalcNPossibleUsingMap`.** It computes the number of possible values of each variable. These counts come from the quantization bounds or from the largest integer in the data.
- **`TextToData`.** It turns the rows of a csv reader into variable names, point names and value rows.
- **`FilterData`.** It splits a data set into kept and rejected rows, so that the kept rows hold a chosen share of rows with a target value.

Python's behaviour is modelled explicitly:

- Exceptions that escape are a `Result` with `IndexError`, `ValueError` or `StopIteration`.
- List indexing accepts negative indices.
- `None` arguments whose only use is a truth test are the empty sequence. Python treats `None` and the empty list alike there.
- Files are sequences of lines, exactly as `readline()` returns them:
  - a `LineReader` class holds the lines and the current position;
  - a `LineWriter` class holds the strings written, one per `write` call (a name holding a newline makes one of them span two file lines).
- `list.sort` with a comparison function is a stable insertion sort of the positions.
- `permutation(n)` is a function `shuffle(draw, n)`. It is required to return a permutation of `range(n)`; `draw` numbers the calls in the order `FilterData` makes them.

Each operation that loops or changes state is a method:

- `WriteData`, `ReadVars` and `ReadQuantExamples` are methods on the file objects.
- The others are methods whose local lists grow as in the source.

Every method is proved equal to a specification function. Lemmas then state the meaning of those functions:

- the round trip from `WriteData` to the two readers;
- the exact error conditions;
- what each result holds, entry by entry;
- for `FilterData`, that `res` and `rej` partition the rows.

Modules:

- `PyCore`: exceptions, indexing, ranges and permutations.
- `Text`: stripping, splitting, joining, and `int` and `str` for integers.
- `LineFiles`: the file objects, and `MoveToMatchingLine`.
- `Qdat`: the writer and the readers.
- `QdatRoundTrip`: the round trip.
- `Ensemble`: `TakeEnsemble`.
- `Counting`: `CountResults`.
- `NPossible`: `CalcNPossibleUsingMap`.
- `TextData`: `TextToData`.
- `StableSort`: the sort.
- `Filter` and `FilterProps`: `FilterData`.

## Model

| member | source | states |
|---|---|---|
| Qdat.WriteData | Python/ML/Data/DataUtils.py:70-92 | With at least as many bounds as names, the file receives the header, one `# name [bounds]` line per variable, the rule and one line per example, in that order. With fewer bounds the file receives the header and the covered table lines, then IndexError is raised. |
| Qdat.ReadVars | Python/ML/Data/DataUtils.py:95-129 | Returns exactly what the table reading specifies: the names and converted bounds of every table line up to the `# ----` line, and the file is left just after that line. A line without `[` gives IndexError; an item that is not a number gives ValueError. |
| Qdat.ParseAllBoundsMeaning | Python/ML/Data/DataUtils.py:120-128 | The conversion of the raw bounds succeeds exactly when every entry converts. It then gives each entry's numbers in order, an empty entry giving `[]`; otherwise it raises ValueError. |
| Qdat.ParseAllMeaning | Python/ML/Data/DataUtils.py:125-126 | Converting a list of items, with `float()` for bounds or `int()` for data values, succeeds exactly when every item converts, and yields each item's number in order. |
| Text.IntAcceptsWholeFloat | Python/ML/Data/DataUtils.py:161 | `int()` accepts every whole number `float()` accepts, with the same value, and also whitespace between the sign and the digits: `int("- 5")` is -5 where `float("- 5")` is a ValueError. |
| Qdat.ReadQuantExamples | Python/ML/Data/DataUtils.py:131-164 | Returns the names and rows of the data lines up to the end of the file. It skips `#` lines and lines with no second field, and raises ValueError on a value that is not an integer. |
| QdatRoundTrip.ReadVarsRoundTrip | Python/ML/Data/DataUtils.py:85-90 | Reading the table of a written file gives back the names, the bounds of the named variables, and the position of the first data line. This holds for names without `[`, `#`, newlines or surrounding blanks that do not start with `----`. |
| QdatRoundTrip.ReadExamplesRoundTrip | Python/ML/Data/DataUtils.py:91-92 | Reading the data lines of a written file, from where the table ends, gives back every point's name and values. This holds for names without spaces, newlines or a leading `#`, and points with at least one value. |
| LineFiles.MoveToMatchingLine | Python/ML/Data/DataUtils.py:113 | Leaves the file just after the first line from the current position that contains the pattern, or at the end when no line does. |
| LineFiles.AfterMatch | Python/ML/Data/DataUtils.py:113 | The position after the match is past the first matching line and past no other matching line. Without a match it is the end of the file. |
| LineFiles.LineReader.ReadLine | Python/ML/Data/DataUtils.py:114 | Returns the line at the position and advances by one. At the end it returns the empty string and stays there. |
| LineFiles.LineWriter.Write | Python/ML/Data/DataUtils.py:85 | Appends exactly the line written. |
| Ensemble.TakeEnsemble | Python/ML/Data/DataUtils.py:463-481 | A result has one entry per index, plus the name and the last entry in data mode, which needs a non-empty vector. The only exception is IndexError. |
| Ensemble.PickMeaning | Python/ML/Data/DataUtils.py:478-480 | Picking by indices succeeds exactly when every index is in range (negative ones included). It then gives the entry at each index, in the order of the indices; otherwise it raises IndexError. |
| Ensemble.PlainEnsemble | Python/ML/Data/DataUtils.py:479-480 | `TakeEnsemble(v, ids)` succeeds exactly when every index is in range, and holds `v[ids[k]]` at position `k`. Otherwise it raises IndexError. |
| Ensemble.DataEnsemble | Python/ML/Data/DataUtils.py:476-478 | With `isDataVect` the result is the name, then `v[ids[k]+1]` for each index, then the last entry. It succeeds exactly when the vector is non-empty and every shifted index is in range; otherwise IndexError. |
| Ensemble.PlainExample | Python/ML/Data/DataUtils.py:466-468 | The first doctest: `[20, 30, 40]`. |
| Ensemble.DataExample | Python/ML/Data/DataUtils.py:469-471 | The second doctest: `['foo', 20, 30, 40, 1]`. |
| Counting.CountResults | Python/ML/Data/DataUtils.py:735-756 | Returns the histogram of the keys of the rows: raw `col` entries, or their bins when bounds are given. A row without the column raises IndexError. |
| Counting.FindBin | Python/ML/Data/DataUtils.py:743-753 | The inner loop returns the bin of the value. |
| Counting.Bin | Python/ML/Data/DataUtils.py:744-753 | The bin lies in `[0, len(bounds)]`. Every bound before it is at most the value, and the bound at it, if any, is above the value. |
| Counting.BinUnique | Python/ML/Data/DataUtils.py:744-753 | Exactly one position has the bin's properties. |
| Counting.BinnedKeys | Python/ML/Data/DataUtils.py:742-753 | With bounds, every key of the result is a whole number in `[0, len(bounds)]`. |
| Counting.RawCounts | Python/ML/Data/DataUtils.py:738-741 | Without bounds, the counting succeeds exactly when every row has the column. The keys are then exactly the column's values, each counted as often as it occurs; otherwise it raises IndexError. |
| Counting.BinnedCounts | Python/ML/Data/DataUtils.py:742-755 | With bounds, the keys are exactly the bins the rows fall in, each counted as often as rows fall in it. A row without the column raises IndexError. |
| Counting.CountsTotal | Python/ML/Data/DataUtils.py:738-756 | The counts over all keys sum to the number of rows. |
| Counting.RowKeysMeaning | Python/ML/Data/DataUtils.py:739-753 | The keys exist exactly when every row has the column, one per row and in order. Otherwise IndexError. |
| Counting.HistogramCounts | Python/ML/Data/DataUtils.py:755 | The histogram holds a key exactly when it occurs, with the number of its occurrences. |
| NPossible.CalcNPossibleUsingMap | Python/ML/Data/DataUtils.py:252-307 | Under the `order`/bounds assertion, returns exactly what the two loops specify, or their IndexError. |
| NPossible.NPossibleMeaning | Python/ML/Data/DataUtils.py:281-307 | The result exists exactly when each variable's first-loop step succeeds and no variable, followed down the data on its own, meets a row too short for its column. It holds one entry per variable: one plus that variable's final count. Otherwise IndexError. |
| NPossible.VariableCount | Python/ML/Data/DataUtils.py:284-307 | One variable's entry is 0 when `nQBounds` marks it, and one more than its number of bounds when it has any. Otherwise, when all its entries are integral, it is one more than the largest of them and at least 0; else it is 0. |
| NPossible.InitialMeaning | Python/ML/Data/DataUtils.py:284-290 | The first loop succeeds exactly when every variable's step does, and gives each variable its own state. |
| NPossible.ScanMeaning | Python/ML/Data/DataUtils.py:292-305 | The scan, with `cols` shrinking as it goes, is the same as following each variable down the data on its own. |
| NPossible.ColumnScanActive | Python/ML/Data/DataUtils.py:294-305 | A variable stays in `cols` exactly while every entry is integral, and then ends with the maximum of those entries and its start. It otherwise leaves with -1, unless a row too short comes first and raises IndexError. |
| NPossible.RowStepMeaning | Python/ML/Data/DataUtils.py:294-305 | One pass over the snapshot `cols[:]` gives every variable what it makes of the row, and fails exactly when one of them fails. |
| NPossible.FixedScan | Python/ML/Data/DataUtils.py:294 | A variable that has left `cols` is never looked at again. |
| TextData.TextToData | Python/ML/Data/DataUtils.py:541-589 | Returns exactly the triple the header and row loops specify, or their exception. |
| TextData.TextToDataMeaning | Python/ML/Data/DataUtils.py:554-587 | An empty reader raises StopIteration. If it is non-empty, the result exists exactly when the kept columns exist and every non-empty row is as long as the header (with some column kept when there are rows). A missing kept column gives IndexError; while columns are kept, a row of another length gives ValueError. |
| TextData.TextToDataContents | Python/ML/Data/DataUtils.py:567-587 | The variable names are the header's kept columns in order. There is one point name and one point per non-empty row: the first kept field, then the other `nVars - 1` kept fields, converted. |
| TextData.KeptMeaning | Python/ML/Data/DataUtils.py:555-559 | Without `onlyCols`, the kept columns are exactly those whose names are not ignored, in increasing order. |
| TextData.OnlyMeaning | Python/ML/Data/DataUtils.py:560-564 | With `onlyCols`, entry `k` is the last header column named `onlyCols[k]`, in `onlyCols` order. A name absent from the header, or repeated in `onlyCols`, leaves -1, which selects the last column. |
| TextData.LastIndexMeaning | Python/ML/Data/DataUtils.py:562-564 | The last column with a name has that name, and no later column has it. It is -1 exactly when no column has the name. |
| TextData.LinesMeaning | Python/ML/Data/DataUtils.py:571-587 | The row loop succeeds exactly when every non-empty row has the header's length. It skips empty rows and gives each remaining row's name and converted values. |
| StableSort.SortOrder | Python/ML/Data/DataUtils.py:639-640 | `sortOrder` has one entry per row, each a position below the number of rows. |
| StableSort.SortOrderMeaning | Python/ML/Data/DataUtils.py:639-640 | The sort order lists every position once, ordered by key, with ties kept in position order. |
| StableSort.SortedKeys | Python/ML/Data/DataUtils.py:640-641 | The keys in sort order never decrease, and equal keys keep the order of their positions. |
| Filter.FilterData | Python/ML/Data/DataUtils.py:622-733 | Given the group sizes and the permutations, returns exactly `(res, rej)` as specified, or its ValueError or IndexError. |
| Filter.FilterSorted | Python/ML/Data/DataUtils.py:634-733 | From the sort on, returns exactly the sorted split as specified, or ValueError when the value is absent. |
| Filter.FindRun | Python/ML/Data/DataUtils.py:643-654 | The two loops find the first position of the value in the sorted keys, and the end of its run. |
| Filter.KeepIndices | Python/ML/Data/DataUtils.py:700-709 | `indicesToKeep` is the first `nTgtFinal` of the shuffled run positions, then the first `nOthersFinal` of the shuffled positions outside the run. |
| Filter.PullPoints | Python/ML/Data/DataUtils.py:713-733 | The points, in the order of the last permutation, go to `res` when kept and to `rej` otherwise. Each point is a row, a sorted index, or an index into `indicesToUse`. |
| FilterProps.FilterErrors | Python/ML/Data/DataUtils.py:626-648 | It is a ValueError exactly for a fraction outside `[0, 1]`, for no data or a first row without the column, or for a value absent from the column. It is an IndexError exactly for an out-of-range index or a row without the column. It succeeds otherwise. |
| FilterProps.FilterResult | Python/ML/Data/DataUtils.py:656-733 | `res + rej` hold every row (or index) exactly once. `res` holds `min(nTgtFinal, w) + min(nOthersFinal, n - w)` of them, and with rows returned exactly `min(nTgtFinal, w)` of them hold the value. Here `w`, with `0 < w <= n`, is the number of rows holding it. |
| FilterProps.SortedSplitFails | Python/ML/Data/DataUtils.py:644-648 | After the sort, the split succeeds exactly when the value occurs in the column, and otherwise raises ValueError. |
| FilterProps.SortedSplitResult | Python/ML/Data/DataUtils.py:656-733 | The partition, size and target-count facts of a successful split, stated on the rows worked on. |
| FilterProps.RowsMeaning | Python/ML/Data/DataUtils.py:634-637 | The rows worked on are all of `inData`, or the rows at `indicesToUse` when every index is in range. Otherwise IndexError. |
| FilterProps.RunExact | Python/ML/Data/DataUtils.py:644-654 | In the sorted keys, a position is in `[start, finish)` exactly when it holds the value. |
| FilterProps.RunCount | Python/ML/Data/DataUtils.py:656 | `nWithVal` is the number of keys equal to the value. |
| FilterProps.KeptShape | Python/ML/Data/DataUtils.py:700-709 | `indicesToKeep` has no repeats. Its first `min(nTgtFinal, nWithVal)` entries lie in the run, and its remaining `min(nOthersFinal, nOthers)` entries lie outside it. |
| FilterProps.DealtPartition | Python/ML/Data/DataUtils.py:717-721 | The points pulled into `res` and into `rej` together are the points in permutation order. |
| FilterProps.DealtMembers | Python/ML/Data/DataUtils.py:717-721 | A position lands in `res` exactly when it is kept, and in `rej` exactly when it is not, each once. |
| FilterProps.SelectPermutation | Python/ML/Data/DataUtils.py:641 | Picking by a permutation keeps every element exactly once. |
| PyCore.PermutationCovers | Python/ML/Data/DataUtils.py:65-68 | A permutation of `range(n)` holds every position below `n`. |

## Left out

- Floating point.
  - The bounds `ReadVars` converts with `float()` are integers here. Only whole numbers in decimal digits are accepted; a fraction, an exponent, `inf` or `nan` is a ValueError in the model.
  - `TextToData`'s `float()` fallback is not modelled. A field that `float()` accepts but `int()` does not stays text.
  - `CalcNPossibleUsingMap`'s entries may be floats, modelled as exact reals; `inf` and `nan` are not modelled.
- The float arithmetic that sizes the two groups of `FilterData` (lines 661-698) is not modelled.
  - `nTgtFinal` and `nOthersFinal` are inputs to the model.
  - The `ZeroDivisionError` it can reach is not modelled either.
- Randomness and printing.
  - `random.shuffle` is an input: the permutation function `shuffle` that `FilterData` receives.
  - The diagnostic `print` statements of `CalcNPossibleUsingMap` are not modelled.
- `fileutils.MoveToMatchingLine` is not part of this model. Its behaviour is stated as reading up to and including the first line containing the pattern.
- Qdat.WriteData: a `qBounds` of `None` is the empty list here. The model then raises IndexError, where Python raises TypeError. Values of an example other than integers are not modelled.
- NPossible.CalcNPossibleUsingMap: a `qBounds` of `None` (allowed by the assertion when `nQBounds` matches `order`) is the empty list here. Where `nQBounds[i] == 0` the model raises IndexError and Python raises TypeError.
- Counting.CountResults: values and bounds are numbers, as reals; values of other types (strings, tuples) that Python would count or compare are not modelled.
- Filter.FilterData: the comparison in the sort is modelled by a check that every row has the column, giving IndexError. Keys and `val` are integers; mixed-type comparison is not modelled.
- Counting.CountsTotal: states the sum over any duplicate-free listing of the result's keys, rather than over a map's values.
- FilterProps.FilterResult: with `indicesOnly`, the number of returned indices whose rows hold the value is not stated. The partition and the sizes are.
- `ReadGeneralExamples`, `BuildQuantDataSet`, `BuildDataSet`, the database and pickle loaders, `InitRandomNumbers` and `RandomizeActivities` are outside the modelled core.
- The `MLData` data set that `TextToData` builds from its triple is not modelled. The model returns the triple.
- Some loops of the source are separate helper methods, each proved against its part of the specification:
  - `WriteTable`, `WriteExamples`, `ConvertBounds`, `InitialPass`, `ObserveRow`, `ObserveColumn`, `SelectColumns`, `ConvertFields`, `FindBin`, `FindRun`, `KeepIndices` and `PullPoints`.
