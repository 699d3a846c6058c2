# Poll tracker: a verified model of the scrape-clean-average-merge pipeline

The poll tracker takes a table of opinion polls scraped from a web page. It cleans and types every cell, averages each candidate's figures per polling date, and can smooth those averages over a trailing seven-row window. It then saves two timestamped CSV snapshots, `polls` and `trends`. Each new snapshot is merged with the most recent earlier snapshot of the same name: an outer join on `Date`, then the folding of the `_x`/`_y` column pairs the join creates, then de-duplication.

This project models that core in Dafny and proves what each step promises.

- `Normalizer` (`normalizer.dfy`) models `PollsWebScraper.is_percentage_column` and `clean_and_process_data`. The nested loop of `clean_and_process_data` is the method `CleanAndProcessData`, proved equal to the function `CleanBatch`.
- `TrendAggregator` (`aggregator.dfy`) models `calculate_date_avg`. This covers the two-level `defaultdict` grouping, the per-date means and the sort by `%m/%d/%y` date. The method `CalculateDateAverage` runs both loops.
- `TrendSmoothing` (`rolling.dfy`) models `calculate_7d_rolling_avg`. It converts and sorts `Date`, runs `rolling(window=7).mean()` over every other column, and writes the dates back as `%m/%d/%y`. The method `CalculateRollingAverage` runs the loop over the candidate columns.
- `CsvExport` (`csvexport.dfy`) models the header `export_to_csv` writes: the union of all keys, sorted by `custom_sort`.
- `Snapshots` (`snapshots.dfy`) models `JoinOutputCSV.generate_filename` and the file selection of `check_and_merge`.
- `OuterJoin` (`join.dfy`) models `pd.merge(old, new, how='outer', on=...)` with pandas' `_x`/`_y` suffixes.
- `SuffixResolution` (`combine.dfy`) models the loop that folds each `_x`/`_y` pair with `combine_first` and drops the pair. The method `ResolveSuffixes` updates the frame column by column.
- `SnapshotMerger` (`merge.dfy`) models `outer_join_csvs`: read, join, fold, `drop_duplicates`, `to_dict('records')`, export.
- `Pipeline` (`pipeline.dfy`) models `check_and_merge` end to end and `polls_trends` with its dispatch on the average type.

Supporting modules:
- `Wrappers`: `Option` and `Result`.
- `Dicts`: insertion-ordered dictionaries as sequences of entries with distinct keys.
- `Cells`: the typed cell values.
- `Strings`: character removal, substring tests, `str.replace` of `_x`, and Python's string order.
- `Numbers`: the `int(...)` and `float(...)` grammar.
- `Dates`: `%m/%d/%y` dates.
- `Sorting`: a stable sort and a sort by a fallible key.
- `Frames`: data frames.

Modelling conventions:
- A Python exception is an `Err` value of `Wrappers.Result`, naming its kind: `MissingKey` for `KeyError`, `BadPercentage` and `BadDate` for `ValueError`, `NotNumeric` for `TypeError` (and, in the rolling mean, for pandas' `DataError`), `DuplicateColumns` for pandas' collision error. `BadDate` also stands for the `TypeError` that `strptime` raises on a `Date` cell that cleaning typed as a number.
- pandas' NaN is `None`.
- Numbers are mathematical integers and reals.
- The directory listing, the creation times, the stored snapshots and the clock are parameters.

## Model

| member | source | states |
|---|---|---|
| Normalizer.IsPercentageColumnSpec | pollswebscraper.py:78-81 | The scan fails (KeyError) exactly when some row lacks the column and no earlier row holds a `%` in it; otherwise it answers whether any row's raw value holds a `%` |
| Normalizer.ScanSucceedsOnRectangularData | pollswebscraper.py:78-81 | When every row has the column the scan never raises |
| Normalizer.FilterSucceedsOnRectangularData | pollswebscraper.py:95 | When every row has every key of the first row, the first pass never raises |
| Normalizer.FilterPercentageColumnsSpec | pollswebscraper.py:95 | The filtered keys are exactly those keys some row holds with a `%` |
| Normalizer.PercentageColumnsSpec | pollswebscraper.py:95 | An empty batch fails at `table_data[0]`; otherwise a column is a percentage column iff it is a key of the first row and some row's raw value for it holds `%` |
| Normalizer.CleanPollster | pollswebscraper.py:101-102 | A Pollster cell loses every `*` and keeps every other character with its multiplicity |
| Normalizer.CleanOther | pollswebscraper.py:103-104 | Any other cell loses every `*`, `,` and whitespace character and keeps every other character with its multiplicity |
| Normalizer.CleanKeepsPercent | pollswebscraper.py:101-104 | Cleaning keeps a `%` iff the raw value had one |
| Normalizer.CleanIdempotent | pollswebscraper.py:101-104 | Cleaning an already cleaned value changes nothing |
| Normalizer.PercentMarkWins | pollswebscraper.py:107-108 | A cell holding `%` converts the same way whether or not its column was classified as a percentage column: the `%` test comes first |
| Normalizer.PercentageColumnCell | pollswebscraper.py:109-118 | In a percentage column a cell without `%` that reads as a number becomes that number over 100; any other cell keeps its cleaned text |
| Normalizer.PlainColumnCell | pollswebscraper.py:120-127 | In any other column a cell never raises; it is an Int iff it reads as an integer, a Float only when it has a decimal point and reads as a number, and text iff it reads as no number |
| Normalizer.ConvertCellShape | pollswebscraper.py:106-127 | Only a cell holding `%` can raise, and then with `BadPercentage` of the cleaned text; text results are the cleaned text itself; an empty cell stays the empty string |
| Normalizer.CleanFields | pollswebscraper.py:99-127 | A cleaned row has the raw row's keys in the same order |
| Normalizer.CleanRows | pollswebscraper.py:97-129 | One cleaned row per raw row, each with the raw row's keys |
| Normalizer.CleanRowCells | pollswebscraper.py:98-127 | The loop over one row's items computes `CleanRow`: the first failing cell's error, or the cleaned row with the raw row's keys in order |
| Normalizer.CleanAndProcessData | pollswebscraper.py:92-131 | The nested loop computes `CleanBatch`: the first failing cell's error, or one cleaned row per raw row with the same keys in the same order |
| Normalizer.CleanFieldsAt | pollswebscraper.py:98-127 | Each position of a cleaned row holds the raw cell's key and that cell cleaned and typed on its own |
| Normalizer.CleanFieldsFails | pollswebscraper.py:98-127 | A row that fails fails with the error of its first failing cell, every earlier cell converting |
| Normalizer.CleanRowsAt | pollswebscraper.py:97-129 | Each cleaned row is its raw row cleaned on its own |
| Normalizer.CleanRowsFails | pollswebscraper.py:97-129 | A batch that fails fails with the error of its first failing row, every earlier row converting |
| Normalizer.CleanBatchSpec | pollswebscraper.py:92-131 | On success, row `i` position `j` of the result is raw cell `j` of row `i` with its key, cleaned and typed under the percentage columns of the first pass; on a batch whose rows all carry the first row's keys, the call fails iff some cell fails to convert, and then with `BadPercentage` of a cell whose raw text holds `%` |
| TrendAggregator.Group | pollswebscraper.py:181-186 | The grouping loop raises KeyError on `Date` exactly when some row has no `Date` |
| TrendAggregator.GroupSpec | pollswebscraper.py:181-186 | After grouping, `averages[d][k]` holds exactly the observations of `k` on date `d` in row order; a candidate is recorded under a date iff it has an observation there; a date is recorded iff some row of that date has an observation |
| TrendAggregator.MeanBounds | pollswebscraper.py:192 | The mean of values lying in `[lo, hi]` lies in `[lo, hi]` |
| TrendAggregator.MeanExample | pollswebscraper.py:192 | Figures 0.40 and 0.50 on one date average to 0.45 |
| TrendAggregator.Averages | pollswebscraper.py:188-193 | One average row per grouped date; the only failure is a non-numeric value (TypeError) |
| TrendAggregator.AveragesFailOnlyOnText | pollswebscraper.py:188-193 | The averaging loop raises only when some observation is text |
| TrendAggregator.SortFails | pollswebscraper.py:196-199 | The sort raises (`BadDate`) exactly when some date that has an observation does not parse as `%m/%d/%y`: ValueError for text, TypeError for a number |
| TrendAggregator.DateAverageRow | pollswebscraper.py:178-201 | Every returned row is dated with a date that has an observation; every other key holds the mean of that date's observations of it, and a key without observations is absent |
| TrendAggregator.DateAverageCovers | pollswebscraper.py:178-201 | Every date with an observation gets a row |
| TrendAggregator.DateAverageDistinctDates | pollswebscraper.py:178-201 | No two returned rows share a date |
| TrendAggregator.DateAverageChronological | pollswebscraper.py:196-199 | The returned rows are in chronological order of their parsed dates |
| TrendAggregator.DateAverageOutcome | pollswebscraper.py:178-201 | A row without `Date` raises KeyError; otherwise a text observation raises TypeError; otherwise the call returns iff every observed date parses, and raises `BadDate` when one does not (ValueError for text, TypeError for a number) |
| TrendAggregator.AppendObservations | pollswebscraper.py:183-186 | The loop over one row's items computes `GroupFields`: every cell outside `Date`, `Pollster` and `Sample` that is not `''` is appended under the row's date and its key |
| TrendAggregator.GroupObservations | pollswebscraper.py:181-186 | The grouping loop computes `Group`, whose contents `GroupSpec` states |
| TrendAggregator.CandidateAverage | pollswebscraper.py:192 | One candidate's entry fails (TypeError) exactly when its list is non-empty and holds text; otherwise it is `''` for an empty list and the mean of the list otherwise |
| TrendAggregator.AverageDate | pollswebscraper.py:190-192 | The loop over one date's candidates computes `AverageRow`: `Date` first, then every candidate in insertion order with its entry, or the first failing candidate's error |
| TrendAggregator.AverageGroups | pollswebscraper.py:188-193 | The loop over `averages.items()` computes `Averages`: one row per date in insertion order, or the first failing date's error |
| TrendAggregator.CalculateDateAverage | pollswebscraper.py:178-201 | The two loops and the sort compute `DateAverage` |
| TrendSmoothing.Rolling | pollswebscraper.py:223 | `rolling(window=7).mean()` keeps the column's length; each cell is the mean of the seven-row window ending there |
| TrendSmoothing.WindowSpec | pollswebscraper.py:223 | A row has a mean exactly from the seventh row on, when none of its seven cells is NaN; the mean is a float |
| TrendSmoothing.WindowBounds | pollswebscraper.py:223 | The mean of a window whose values lie in `[lo, hi]` lies in `[lo, hi]` |
| TrendSmoothing.WindowSlide | pollswebscraper.py:223 | Sliding the window one row drops the oldest value from the sum and adds the newest |
| TrendSmoothing.RollingExample | pollswebscraper.py:223 | Daily values 1 to 10 give six NaN, then the means 4 to 7 |
| TrendSmoothing.SortedFrameErr | pollswebscraper.py:216 | Date conversion fails exactly when a `Date` cell is neither NaN nor a `%m/%d/%y` date |
| TrendSmoothing.SortedFrameShape | pollswebscraper.py:216-217 | Sorting keeps the columns and the row count |
| TrendSmoothing.SortedFrameSpec | pollswebscraper.py:216-217 | The sorted frame is a permutation of the input rows in ascending order of converted date |
| TrendSmoothing.SortedFrameChronological | pollswebscraper.py:216-217 | After sorting, NaT is followed only by NaT, and real dates never go backwards |
| TrendSmoothing.RollColumns | pollswebscraper.py:222-223 | The loop over candidates keeps the columns and the row count, and fails only on a text cell in one of the candidate columns |
| TrendSmoothing.RollingAverageShape | pollswebscraper.py:212-227 | The result has the input's columns in first-appearance order and one row per input row |
| TrendSmoothing.RollingAverageCell | pollswebscraper.py:220-223 | Each candidate cell is the seven-row mean, over the date-sorted column, ending at its row |
| TrendSmoothing.RollingAverageDate | pollswebscraper.py:225 | Each `Date` cell is the sorted row's date written back as `%m/%d/%y` |
| TrendSmoothing.RollingAverageOutcome | pollswebscraper.py:212-227 | No `Date` column raises KeyError; an unconvertible date raises ValueError; otherwise the call fails iff a candidate column holds text, which the model reports as pandas' DataError |
| TrendSmoothing.RollingOfNothing | pollswebscraper.py:213-216 | An empty list has no `Date` column and raises KeyError |
| TrendSmoothing.DateAverageThenRolling | pollswebscraper.py:203-227 | Smoothing the output of `calculate_date_avg` fails only when that output is empty |
| TrendSmoothing.RollCandidates | pollswebscraper.py:222-223 | The loop over candidates computes `RollColumns` |
| TrendSmoothing.CalculateRollingAverage | pollswebscraper.py:212-227 | The whole method computes `RollingAverage` |
| CsvExport.Rank | pollswebscraper.py:148-155 | A priority name ranks by its index; any other name ranks after all three |
| CsvExport.CustomLessStrict | pollswebscraper.py:147-157 | The `custom_sort` order is irreflexive and transitive |
| CsvExport.CustomLessTotal | pollswebscraper.py:147-157 | Any two distinct names are ordered one way or the other |
| CsvExport.HeaderSpec | pollswebscraper.py:143-157 | The header names every key of every row, each once, in strictly ascending `custom_sort` order |
| CsvExport.HeaderLayout | pollswebscraper.py:147-157 | A present `Date` is the first column; priority names come first, in priority order, and the rest follow in string order |
| CsvExport.StrictlySortedUnique | pollswebscraper.py:157 | Two strictly `custom_sort`-ordered listings of the same names are equal |
| CsvExport.HeaderUnique | pollswebscraper.py:144-157 | The header does not depend on the order in which the `set` lists the names |
| CsvExport.HeaderExample | pollswebscraper.py:143-157 | Keys Smith, Date, Sample and Jones give the header Date, Sample, Jones, Smith |
| Snapshots.Digits | joinoutputcsv.py:31 | A zero-padded field has exactly its width in digits and reads back as its value |
| Snapshots.Timestamp | joinoutputcsv.py:31 | `%Y%m%d%H%M%S` is fourteen digits |
| Snapshots.TimestampRoundTrip | joinoutputcsv.py:31 | Parsing the timestamp gives back the clock reading |
| Snapshots.TimestampInjective | joinoutputcsv.py:31 | Distinct clock readings give distinct timestamps |
| Snapshots.GenerateFilename | joinoutputcsv.py:22-32 | The name is the base name, `_`, the timestamp and `.csv`, and passes the selection test for its base name |
| Snapshots.GenerateFilenameInjective | joinoutputcsv.py:22-32 | Two snapshots of one base name written at distinct clock readings have distinct names |
| Snapshots.Candidates | joinoutputcsv.py:43-44 | A listed file is a candidate iff its name contains the base name and ends in `.csv` |
| Snapshots.MostRecent | joinoutputcsv.py:47 | `max` by creation time returns a listed file of greatest creation time, the first such |
| Snapshots.CheckAndMerge | joinoutputcsv.py:43-50 | The output is always the generated name; it exports afresh iff no file is a candidate; otherwise it merges with a candidate of greatest creation time |
| Snapshots.SnapshotIsFoundAgain | joinoutputcsv.py:43-50 | Once a snapshot is written, the next run for that base name merges instead of exporting |
| OuterJoin.JoinOutcome | joinoutputcsv.py:69 | The merge raises KeyError iff the key is missing on either side; with the key present, the model reports the collision error iff two labels of the joined frame coincide, a wider rule than pandas' (see Left out); otherwise every row has every column |
| OuterJoin.JoinColumnsLayout | joinoutputcsv.py:69 | The joined labels are each old column in order, with `_x` when the new frame carries it too and it is not the key, then each new non-key column in order, with `_y` when the old frame carries it too; no label repeats |
| OuterJoin.JoinRowOrigin | joinoutputcsv.py:69 | Every joined row comes from an old row and a partner with the same key, from an old row without a partner, or from a new row whose key no old row holds |
| OuterJoin.JoinedRowLeft | joinoutputcsv.py:69 | A joined row holds the old row's cell under each old column's label, taking the key from the new row when the old row is absent |
| OuterJoin.JoinedRowRight | joinoutputcsv.py:69 | A joined row holds the new row's cell under each new non-key column's label |
| OuterJoin.JoinKeepsOld | joinoutputcsv.py:69 | Every old row reaches the joined frame |
| OuterJoin.JoinKeepsNew | joinoutputcsv.py:69 | Every new row reaches the joined frame, paired with each old row holding its key, or alone when none does |
| OuterJoin.JoinKeys | joinoutputcsv.py:69 | Every key cell of either side is the key cell of some joined row |
| OuterJoin.JoinLabelsDistinct | joinoutputcsv.py:69 | Frames whose labels carry no `_x`/`_y` suffix never collide in the merge |
| SuffixResolution.Combine | joinoutputcsv.py:72-76 | The fold loop keeps every row's columns in step and the row count |
| SuffixResolution.CombineErrorSticks | joinoutputcsv.py:72-76 | Once a lookup in the loop raises, the whole loop raises that error |
| SuffixResolution.ResolveSuffixes | joinoutputcsv.py:72-76 | The loop that updates the frame column by column computes `Combine` over the labels the frame started with |
| SuffixResolution.StripResolves | joinoutputcsv.py:72-76 | With suffix stripping, the loop never fails on a joined frame; every processed pair is combined and gone, and every other column is untouched |
| SuffixResolution.MergeSucceeds | joinoutputcsv.py:69-76 | The join of two unsuffixed frames and the loop over its labels both succeed |
| SuffixResolution.MergeResolved | joinoutputcsv.py:69-76 | After the join and the loop, the labels are exactly those of the two sides; each cell is the old value when present, else the new one (`combine_first`), or the side's own value for an unshared column |
| SuffixResolution.RenamingsAgree | joinoutputcsv.py:74-76 | When no `_x` label has `_x` inside its stem, `replace('_x', ...)` and suffix stripping give the same loop result |
| SuffixResolution.AsWrittenResolves | joinoutputcsv.py:74-76 | When no label of either side contains `_x`, the loop as written behaves as the corrected one |
| SuffixResolution.InnerXBreaksMerge | joinoutputcsv.py:74-76 | A column `Li_xin` on both sides: the loop as written looks up `Li_yin_y` and raises KeyError, while suffix stripping folds the pair back into `Li_xin` |
| SnapshotMerger.Export | pollswebscraper.py:143-163 | The written records are the data; the header holds exactly the keys of the rows |
| SnapshotMerger.FrameOfRecords | joinoutputcsv.py:66 | `pd.DataFrame(records)` has the keys in first-appearance order, one row per record, and NaN where a record lacks a key |
| SnapshotMerger.Records | joinoutputcsv.py:82 | `to_dict('records')` gives one record per row, each keyed by the columns in order |
| SnapshotMerger.RecordsRoundTrip | joinoutputcsv.py:66 | A frame with rows survives `to_dict('records')` then `pd.DataFrame` unchanged |
| SnapshotMerger.LiftFrame | pollswebscraper.py:213 | `pd.DataFrame` builds the same frame from the cleaned rows as from their records |
| SnapshotMerger.Dedupe | joinoutputcsv.py:79 | `drop_duplicates` leaves distinct rows, the same set of rows, and no more rows |
| SnapshotMerger.DedupeKeepsFirstOrder | joinoutputcsv.py:79 | The kept rows appear in the order of their first occurrences |
| SnapshotMerger.DedupeDistinct | joinoutputcsv.py:79 | Rows that are already distinct are kept as they are, so dropping duplicates is idempotent |
| SnapshotMerger.DropDuplicates | joinoutputcsv.py:79 | The frame keeps its columns and its rows lose their repeats |
| SnapshotMerger.OuterJoinCsvs | joinoutputcsv.py:52-82 | The method computes `MergeSnapshot`: read, join, fold, dedupe, export |
| SnapshotMerger.MergeSnapshotMissingKey | joinoutputcsv.py:66-69 | A key missing from the old snapshot or from every new row raises KeyError, an empty batch included |
| SnapshotMerger.MergeSnapshotSpec | joinoutputcsv.py:52-82 | On labels without merge suffixes the merge succeeds; the header names every column of either side once, in `custom_sort` order; no two records are equal; every record has a cell for every header name |
| SnapshotMerger.MergeSnapshotRecords | joinoutputcsv.py:69-82 | Every written record is the merge of an old row and its partner, or of a new row alone |
| SnapshotMerger.MergeSnapshotKeepsOldKeys | joinoutputcsv.py:69-82 | Every key of the old snapshot reaches a written record |
| SnapshotMerger.MergeSnapshotKeepsNewKeys | joinoutputcsv.py:69-82 | Every key of the new rows reaches a written record |
| Pipeline.SaveSnapshot | joinoutputcsv.py:34-50 | A saved snapshot always carries the generated name |
| Pipeline.FirstSnapshotExports | joinoutputcsv.py:49-50 | With no earlier snapshot the rows are exported as they are |
| Pipeline.LaterSnapshotMerges | joinoutputcsv.py:46-48 | With an earlier snapshot the rows are merged into the most recent one; a batch without the key column fails, even an empty one |
| Pipeline.TrendRecordsSimple | joinoutputcsv.py:107-108 | Any average type other than exactly `Rolling` writes the simple averages unchanged |
| Pipeline.TrendRecordsRolling | joinoutputcsv.py:103-106 | Smoothing the simple averages fails iff there are none; otherwise one record per average, each with every column |
| Pipeline.PollsSnapshotIsNoTrendsCandidate | joinoutputcsv.py:44 | A polls snapshot's name never passes the selection test for `trends` |
| Pipeline.PollsTrends | joinoutputcsv.py:97-108 | A cleaning or averaging failure stops the run before any write, with that error; the run gets past the polls step iff cleaning, averaging and the polls save succeed; the polls snapshot then carries its generated name, and so does a written trends snapshot |
| Pipeline.SaveTrends | joinoutputcsv.py:98-108 | The polls snapshot, already written, stays in the run's result whatever the trends step does; a written trends snapshot carries its generated name; a failed smoothing is recorded as the trends step's error |
| Pipeline.SaveTrendsExports | joinoutputcsv.py:44-50 | With no trends snapshot listed, the trends records are exported unchanged under the generated trends name; the polls snapshot just written does not count |
| Pipeline.SaveTrendsMerges | joinoutputcsv.py:44-48 | With a trends snapshot listed, the trends records are merged on `Date` into an earlier trends file of greatest creation time, never the polls snapshot, and the result (or the merge error) is the trends snapshot |
| Pipeline.PollsTrendsWritesAverages | joinoutputcsv.py:97-108 | A first run with an average type other than `Rolling` writes exactly the simple per-date averages of the cleaned polls as its trends snapshot |
| Pipeline.PollsTrendsWrites | joinoutputcsv.py:97-108 | A run that gets past the polls step has written the polls snapshot under its generated name, and a trends snapshot it writes under its own; each passes its own selection test, and the polls snapshot never counts as trends |
| Pipeline.RollingWithoutAveragesKeepsPolls | joinoutputcsv.py:97-106 | With no candidate figure at all, `Rolling` smoothing raises KeyError on `Date` after the polls snapshot was written, and that snapshot stays written |
| Pipeline.PollsTrendsOfNothing | joinoutputcsv.py:97-98 | An empty scrape stops the run at `table_data[0]`, before any file is written |
| Pipeline.PollsTrendsDefaultsToSimple | joinoutputcsv.py:103-108 | Any average type other than `Rolling` runs exactly as `Simple` does |
| Pipeline.AverageTypeOnlyAffectsTrends | joinoutputcsv.py:97-108 | The average type changes only the trends step: runs with two average types stop alike before the polls snapshot, or both write the same polls snapshot |
| Strings.Remove | pollswebscraper.py:102-104 | `re.sub` with a character class removes every character of the class and keeps every other character with its multiplicity |
| Strings.RemoveIdempotent | pollswebscraper.py:102-104 | Removing a character class twice removes nothing more |
| Strings.ReplaceXOfSuffixed | joinoutputcsv.py:74-76 | On a label whose only `_x` is its suffix, `replace('_x', t)` swaps the suffix for `t` |
| Strings.LessIrreflexive | pollswebscraper.py:155 | Python's string `<` is irreflexive |
| Strings.LessTransitive | pollswebscraper.py:155 | Python's string `<` is transitive |
| Strings.LessTotal | pollswebscraper.py:155 | Python's string `<` orders any two distinct strings |
| Numbers.IntTextIsFloatText | pollswebscraper.py:121-125 | Text `int()` accepts, `float()` accepts with the same value |
| Numbers.NoPointFloatIsInt | pollswebscraper.py:112-116 | Without a decimal point `float()` succeeds exactly when `int()` does, with the same value |
| Numbers.EmptyIsNotANumber | pollswebscraper.py:121-127 | Neither `int()` nor `float()` accepts the empty string |
| Dates.ParseDate | pollswebscraper.py:196-197 | `strptime(..., '%m/%d/%y')` yields only valid calendar dates |
| Dates.OrdinalOrder | pollswebscraper.py:199 | Comparing parsed dates by ordinal is chronological order, and equal ordinals mean equal dates |
| Dates.ParseRender | pollswebscraper.py:225 | Writing a date as `%m/%d/%y` and parsing it back gives the same date |
| Sorting.SortedPermutation | pollswebscraper.py:199 | `sorted` with a key rearranges the elements and nothing else |
| Sorting.SortedOrdered | pollswebscraper.py:199 | `sorted` with a key returns the elements in ascending order of their keys |
| Sorting.SortedDistinct | pollswebscraper.py:199 | Sorting elements without repetitions repeats nothing |
| Sorting.SortedStable | pollswebscraper.py:199 | `sorted` is stable: the elements of any one key come out in the order they went in |
| Sorting.SortByKeyStable | pollswebscraper.py:199 | Sorting the keyed pairs keeps the pairs of each key in their input order |
| Sorting.SortSorted | pollswebscraper.py:157 | Sorting by a strict order returns a sequence ordered by it |
| Frames.FrameOf | pollswebscraper.py:213 | `pd.DataFrame(list_of_dicts)` has the keys in first-appearance order, one row per dict, and NaN where a dict lacks a key |
| Frames.FrameCell | pollswebscraper.py:213 | A cell of the frame is the dict's value for its column, or NaN |
| Dicts.KeyUnion | pollswebscraper.py:144 | The union of the keys of all rows: each key once, and exactly the keys some row holds |
| Dicts.AddNewOrder | pollswebscraper.py:213 | The keys a row adds to the union come in that row's key order |
| Dicts.KeyUnionPrefix | pollswebscraper.py:213 | The union over the first rows is a prefix of the union over all rows |
| Dicts.KeyUnionOrder | pollswebscraper.py:213 | The union lists keys in order of first appearance: a key first held by an earlier row comes first, and keys first held by the same row come in that row's key order |
| Dicts.Put | pollswebscraper.py:108 | `d[k] = v` replaces the value in place when `k` is present and appends the entry otherwise; no other key changes |
| SuffixResolution.Coalesce | joinoutputcsv.py:74 | `combine_first` on one cell keeps the first value unless it is NaN |
| SuffixResolution.Combined | joinoutputcsv.py:74 | `combine_first` on two columns is the cell-by-cell `Coalesce` |
| SuffixResolution.Assign | joinoutputcsv.py:75 | Assigning a column replaces it in every row, or appends it when absent; no other column changes |
| SuffixResolution.DropColumns | joinoutputcsv.py:76 | Dropping columns removes exactly those labels from the frame and from every row |

## Left out

- Scraping is left out: `extract_table_data_from_url`, the HTTP request and BeautifulSoup parsing. The raw table is a parameter of `Pipeline.PollsTrends`.
- File I/O is left out: writing CSV files, `pd.read_csv`, `os.listdir`, `os.path.isfile`, `os.path.getctime` and `datetime.now()`. The listing with creation times, the stored snapshots (already read into frames) and the clock readings are parameters. The creation time of the polls snapshot written during a run is a parameter too.
- The typing `pd.read_csv` applies to a stored snapshot is not modelled. The stored snapshot is a frame of typed cells.
- Floating point is modelled by exact reals. Rounding of the means and of `x / 100` is not modelled.
- Snapshots.Timestamp: only years 1000 to 9999 are modelled, because `%Y` prints other years with a different width.
- Numbers.ParseInt and Numbers.ParseFloat accept an optional sign, digits and at most one decimal point. Python's surrounding whitespace, underscores, exponents, `inf` and `nan` are not modelled. Cleaning removes whitespace from every column except `Pollster`, where only `*` goes. So a `Pollster` cell `* 12` stays the text ` 12` in the model where Python's `int()` gives 12, and a `Pollster` cell `45 %` fails with `BadPercentage` where Python gives 0.45.
- `pd.to_datetime` accepts more date formats than the model. The model takes `%m/%d/%y` cells and NaN, which becomes NaT. The output of `calculate_date_avg` only holds dates in that format.
- The order of tied rows is not modelled. The `sort_values` of `calculate_7d_rolling_avg` uses pandas' default sort, which is not stable, and the model sorts stably. Its input has distinct `Date` texts (`TrendAggregator.DateAverageDistinctDates`), but two texts can name one day (`1/5/24` and `01/05/24`). Such rows tie, pandas may put them in either order, and the rolling windows depend on that order. The stable order the model uses is stated by `Sorting.SortedStable`, the same rule as Python's `sorted` in `calculate_date_avg`.
- TrendSmoothing.RollColumn: the model refuses every candidate column that holds text. pandas' `rolling(window=7).mean()` converts an object column to floats first, so text numpy reads as a float (`"0.5"`) is averaged, and only a failed conversion raises DataError. The program never passes text here: `calculate_date_avg` output holds numbers only (`TrendSmoothing.DateAverageThenRolling`).
- pandas' column dtypes are not modelled. Integer columns that pick up a NaN in the join are not turned into floats.
- The row order of `pd.merge(how='outer')` is modelled as old rows first, each followed by its partners, then unmatched new rows. Recent pandas versions sort the joined rows by key. The properties proved are about which rows appear, not about their order.
- The merge lemmas assume that no label of either snapshot ends in `_x` or `_y` (`NoSuffixes`, `PlainKeys`): those of `SnapshotMerger`, and `SuffixResolution.MergeSucceeds`, `SuffixResolution.MergeResolved` and `SuffixResolution.AsWrittenResolves`. Such a label breaks the fold loop directly: an old label `Max_x` that the new frame lacks makes the loop look up `Max_y` and raise KeyError, in the source and in the model alike.
- OuterJoin.JoinOutcome: the model reports `DuplicateColumns` whenever two labels of the joined frame coincide. pandas 2 raises only when one side's own labels repeat after suffixing, for example an old frame with `A` and `A_x` joined with a new frame holding `A`. A collision across the sides, such as old `A` and `A_y` joined with new `A`, gives pandas a frame with two `A_y` columns and no error. The model's rows are maps from label to cell and cannot hold a repeated label. Frames whose labels carry no suffix never collide (`OuterJoin.JoinLabelsDistinct`).
- SnapshotMerger.OuterJoinCsvs folds the column pairs by stripping the `_x` suffix, the corrected loop (see Findings). `SuffixResolution.AsWrittenResolves` shows that this equals the loop as written whenever no label contains `_x`.
- `main.py` is not part of this model: it calls `polls_trends` once with a fixed URL and the average type `Rolling`.
- The returned path of `export_to_csv` and `polls_trends`, and the printing, are not modelled.
- `outer_join_csvs` on an empty batch of new rows raises KeyError, because `pd.DataFrame([])` has no key column (`SnapshotMerger.MergeSnapshotMissingKey`).

## Findings

| source | as written | input that shows it | evidently intended | confidence | as-written member | corrected member |
|---|---|---|---|---|---|---|
| joinoutputcsv.py:74-76 | `column.replace('_x', '_y')` and `column.replace('_x', '')` replace every `_x` in the label, not only the merge suffix | both snapshots have a candidate column `Li_xin`; the merge labels it `Li_xin_x` and `Li_xin_y`, and the loop then looks up `Li_yin_y`, raising KeyError | replace only the trailing `_x` suffix, folding the pair back into `Li_xin` | not executed | SuffixResolution.InnerXBreaksMerge | SuffixResolution.MergeResolved |
