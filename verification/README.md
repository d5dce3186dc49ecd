# NAB results analysis, scoring core

This project models the scoring core of `scripts/analyze.py` of the
Numenta Anomaly Benchmark (NAB) results tools, and proves properties of
that model in Dafny.

Given a detector's output rows, the core does the following:

- It loads the ground-truth anomaly windows of every data series.
- It classifies each output row whose anomaly score reaches the profile's
  threshold. Such a row is a *true positive* of the first window that
  contains its timestamp, or a *false positive* of its series when no
  window contains it.
- It reduces the result to a report:
  - the totals, which are true positives, detected windows, undetected
    windows and false positives;
  - their weighted ceilings under the profile's cost matrix;
  - the list of series that have undetected windows.

Modules, in dependency order:

- `Outcomes`: the `Option` and `Result` wrappers, and the three ways a run
  can fail:
  - an unparsable timestamp;
  - a result file for a series the label file does not know;
  - a row label that disagrees with window membership.
- `Timestamps`: `_dt`. Everything from the first `.` on is dropped. The
  fixed-format date parser is a parameter.
- `Windows`: the window table; `getWindows`; the first-match lookup
  `_inWindow`; the per-series window counts.
- `SeriesPaths`: how a result file's name maps back to its series. The
  text up to and including the first `_` is stripped, then the rest is
  joined to the group directory.
- `Classify`: the per-row classification loop. Its state is the window
  table with its credited detections, plus the false-positive lists.
- `Totals`: sums over the table's iteration order, and their independence
  of that order.
- `Ranking`: the `[count, path]` sort (lexicographic on character codes)
  and the filter of series with missed windows.
- `Aggregation`: the counting loops over the classified table.
- `Analysis`: the whole run, `analyze`, and the report it yields.

The main results are these:

- **Conservation.** Each detection row is counted exactly once, either as a
  true positive or as a false positive (`Analysis.ScoredReport`).
- **Window partition.** The labelled windows split into detected and
  undetected ones. Every detected window holds at least one true positive.
- **Soundness.** Classification keeps each detection in the first window
  that contains it, and keeps each false positive outside every window of
  its series (`Classify.Sound`). This holds for every successful run,
  whose classified windows keep the bounds loaded from the label file
  (`Analysis.Scored`).
- **False-positive total.** The report sums false positives over the
  window table's series, where the source sums over the false-positive
  dictionary. The two sums agree in every successful run, whatever order
  either dictionary is iterated in (`Analysis.FalsePositiveSumsAgree`).
- **Order independence.** The report, ranking included, is the same for
  every iteration order of the window table
  (`Analysis.ReportOrderIndependent`). It is also the same for every
  order in which the result files are discovered, and the run succeeds
  for one order exactly when it succeeds for another
  (`Analysis.FileOrderIndependent`).
- **Error paths.** Each error is reported exactly when the source would
  raise, for names that both sides spell with the same kind of string
  (see "## Left out"):
  - the `KeyError` of line 57;
  - the `assert`s of lines 65-68;
  - a `strptime` failure.

## Model

| member | source | states |
|---|---|---|
| Timestamps.TruncateFraction | scripts/analyze.py:149 | the result is a prefix of the text with no `.` in it, and it stops only at a `.` (the first part of `split(".")`) |
| Timestamps.TruncationUnique | scripts/analyze.py:149 | those three facts determine the truncated text uniquely |
| Timestamps.TruncateFractionIdempotent | scripts/analyze.py:149 | truncating an already truncated timestamp changes nothing |
| Timestamps.TruncateFractionDropsSuffix | scripts/analyze.py:149 | `s + "." + frac` truncates to `s`, whatever the fractional part holds |
| Timestamps.DtIgnoresFraction | scripts/analyze.py:148-150 | a timestamp with a fractional-seconds suffix parses to the same instant as the same text without it |
| Timestamps.Dt | scripts/analyze.py:148-150 | the parser sees the text up to, but not including, its first `.` (the whole text when it has none), so a text without `.` parses exactly as the parser reads it |
| Windows.InWindow | scripts/analyze.py:140-144 | the result is the first window, in list order, whose closed interval contains the timestamp; both ends count; the result is none exactly when no window contains it |
| Windows.CoveredSameBounds | scripts/analyze.py:142 | membership depends only on window bounds, never on the detections already credited |
| Windows.InWindowSameBounds | scripts/analyze.py:140-144 | crediting detections never changes which window a later timestamp is matched to |
| Windows.ParseSeries | scripts/analyze.py:118-120 | a series' windows parse exactly when every boundary text parses; the windows keep the label file's number and order; each window starts with no detections |
| Windows.GetWindows | scripts/analyze.py:111-121 | the table has exactly the label file's series; each series keeps its windows' number and order; the windows hold the parsed bounds and no detections; the load fails exactly when some boundary timestamp does not parse |
| Windows.Credit | scripts/analyze.py:73 | appending a detection to one window leaves every bound and every other window unchanged, and adds one detection to the series |
| Windows.DetectedPartition | scripts/analyze.py:83-88 | each window of a series is either detected or undetected, never both |
| Windows.DetectedAtMostDetections | scripts/analyze.py:84-86 | a series has no more detected windows than detections |
| SeriesPaths.AfterFirstUnderscore | scripts/analyze.py:56 | the result is the text after the first `_`, or empty when there is none (the third part of `partition("_")`) |
| SeriesPaths.StripsDetectorPrefix | scripts/analyze.py:56 | for a detector name without `_`, `detector + "_" + file` strips back to `file` |
| SeriesPaths.PathJoin | scripts/analyze.py:56 | `os.path.join`: an absolute second part replaces the first; otherwise both parts are kept, with one separator only when the first part is non-empty and does not end in `/` |
| SeriesPaths.SeriesPath | scripts/analyze.py:56 | a result file's series is the group directory joined with whatever follows the first `_` of the file name, or with nothing when the name has no `_` |
| SeriesPaths.ResultFileNamesItsSeries | scripts/analyze.py:55-57 | the result file that detector `d` writes for series `dir/file` is looked up under `dir/file` |
| Classify.CreditWindow | scripts/analyze.py:72-73 | a true positive is appended to its window only; the series' recorded count grows by one; the soundness invariant is kept |
| Classify.FlagFalsePositive | scripts/analyze.py:74-75 | a false positive is appended to its series' list only; the recorded count grows by one; soundness is kept |
| Classify.ClassifyRow | scripts/analyze.py:61-75 | the row is accepted exactly when its timestamp parses and its label agrees with window membership, with the matching error otherwise; a row below the threshold changes nothing; a detection is credited to the first containing window, or else flagged as a false positive |
| Classify.ClassifyRows | scripts/analyze.py:60-75 | a file's rows succeed exactly when every row is consistent; only that series changes; each window gains, in row order, the timestamps of the detection rows it is the first to contain, and the series' false positives gain, in row order, the detections no window contains; soundness is kept; a failure carries the error of the first inconsistent row |
| Classify.ClassifyFile | scripts/analyze.py:54-75 | a file whose series is not in the table fails with that series' path (the `KeyError` of line 57); otherwise it records its rows' detections into that series' windows and false positives as above, or fails with the first inconsistent row's error |
| Classify.RecordsShape | scripts/analyze.py:51-75 | recording the rows of the same result files in two orders gives every window as many detections and the series as many false positives |
| Classify.ClassifyFiles | scripts/analyze.py:51-75 | the run succeeds exactly when every file is consistent with the table; each series' windows and false positives gain the detections of the rows of its files, in file and row order, and a series outside the table gains nothing; soundness is kept; a failure carries the error of the first failing file |
| Totals.TotalPermutation | scripts/analyze.py:81-89 | a sum over the table's series is the same in every iteration order |
| Totals.MapSeqPermutation | scripts/analyze.py:81-82 | the per-series entries built in two iteration orders are permutations of each other |
| Ranking.StrLeIsLexicographic | scripts/analyze.py:103 | path comparison is Python's string order: one path is at most another exactly when it is a prefix of it or the first differing character is smaller |
| Ranking.TallyLeTotal | scripts/analyze.py:103 | any two `[count, path]` entries are comparable |
| Ranking.TallyLeAntisymmetric | scripts/analyze.py:103 | two entries that compare both ways are the same entry, so the sort leaves no ties |
| Ranking.TallyLeTransitive | scripts/analyze.py:103 | the `[count, path]` order is transitive |
| Ranking.Sort | scripts/analyze.py:103 | the sorted tallies ascend by (missed windows, path) and are a permutation of the input |
| Ranking.SortedUnique | scripts/analyze.py:103 | two ascending tally lists with the same elements are equal, because the order leaves no ties |
| Ranking.Worst | scripts/analyze.py:103-106 | the reported tallies ascend, and they are exactly the input tallies with at least one missed window, each as many times as it occurs in the input |
| Ranking.WorstMembers | scripts/analyze.py:103-106 | a tally is reported exactly when it is an input tally with at least one missed window |
| Ranking.WorstPermutationInvariant | scripts/analyze.py:103-106 | the report does not depend on the order in which the tallies were collected |
| Aggregation.AggregateSeries | scripts/analyze.py:83-89 | one series' loop yields its true positives, detected windows and undetected windows, and the two window counts add up to its window count |
| Aggregation.Aggregate | scripts/analyze.py:77-89 | the loop's totals are the per-series sums; detected plus undetected windows is every window; detected windows are at most the true positives; the tallies' missed counts add up to the undetected total |
| Aggregation.CountFalsePositives | scripts/analyze.py:96-98 | the false-positive total is the sum of the per-series list lengths, where a series without a list counts zero |
| Aggregation.WindowsPartition | scripts/analyze.py:83-88 | over the whole table, detected plus undetected windows equals the number of windows |
| Aggregation.DetectedAtMostTp | scripts/analyze.py:84-86 | over the whole table, detected windows never outnumber true positives |
| Aggregation.MissedTotalIsUndetected | scripts/analyze.py:82-89 | the ranking counters add up to the undetected-window total |
| Aggregation.TallyMembership | scripts/analyze.py:81-82 | a series has a ranking entry exactly when it is in the table, and the entry carries its own undetected count |
| Aggregation.TallyCount | scripts/analyze.py:81-82 | a series' ranking entry occurs exactly as many times as the iteration order visits the series |
| Aggregation.TalliesPermutation | scripts/analyze.py:81-82 | the ranking entries of two iteration orders are permutations of each other |
| Analysis.Scored | scripts/analyze.py:46-75 | loading fails with the timestamp error when any window bound does not parse; otherwise classification succeeds exactly when every file is consistent, fails with the first failing file's error, and on success records every series' detection rows from all its files into a table with exactly the label file's series; a series the label file does not list gets no false positives; every classified window keeps the bounds loaded from the label file; the classified state is sound |
| Analysis.ReportOf | scripts/analyze.py:77-106 | detected plus undetected windows is every window of the table; detected windows are at most the true positives; the ceilings add up to every window's true-positive weight plus the missed windows' false-negative weight; the offenders are exactly the visited series with a missed window, none twice |
| Analysis.InitialSound | scripts/analyze.py:117-120 | a freshly loaded table, whose windows hold no detections, is sound |
| Analysis.FalsePositiveSumsAgree | scripts/analyze.py:96-98 | in a sound state, summing false-positive list lengths over the window table's series gives the same total as summing over the false-positive dictionary, in any order of either |
| Analysis.ClassifyFileConservation | scripts/analyze.py:54-75 | one file adds exactly its detection rows to the corpus-wide recorded total |
| Analysis.ClassifyFilesConservation | scripts/analyze.py:51-75 | all files together add exactly their detection rows to the recorded total |
| Analysis.InitialRecordsNothing | scripts/analyze.py:117-120 | a freshly loaded table records no true positives and no false positives |
| Analysis.ReportOrderIndependent | scripts/analyze.py:77-106 | every report figure and the ranking are the same whatever order the window table is iterated in |
| Analysis.ReportOfShape | scripts/analyze.py:77-106 | two classified states whose windows hold as many detections each, and whose series have as many false positives each, give the same report |
| Analysis.FileOrderIndependent | scripts/analyze.py:51-106 | two runs over the same result files in different discovery orders succeed together, and then give the same report and ranking |
| Analysis.OffendersExact | scripts/analyze.py:103-106 | a series is reported exactly when it is in the table and has at least one undetected window |
| Analysis.OffendersDistinct | scripts/analyze.py:103-106 | when the table is visited once per series, no series is reported twice |
| Analysis.Offenders | scripts/analyze.py:103-106 | the reported series are exactly the visited series with a missed window, none twice |
| Analysis.OffendersAscending | scripts/analyze.py:103-106 | reported series ascend by (undetected windows, path): the series missing the fewest windows comes first |
| Analysis.ScoredReport | scripts/analyze.py:77-100 | true positives plus false positives equals the number of detection rows; detected plus undetected windows equals the windows in the label file; detected windows are at most the true positives; the ceilings add up |
| Analysis.Summarise | scripts/analyze.py:77-106 | the counting loops, the ceilings and the ranking produce the report of the classified state; offenders are exactly the series with missed windows, none twice when the table is visited once per series |
| Analysis.Analyze | scripts/analyze.py:45-106 | the run fails exactly when loading or classification fails, with that error: an unparsable window timestamp always fails it, and otherwise the error is the first failing file's; otherwise it yields the report, whose false-positive figure is the sum over the false-positive dictionary in any iteration order, together with the conservation, partition and ceiling facts above |

## Left out

- File and directory I/O is not modelled. This covers reading the label
  file and the CSV result files, the `os.listdir` walk, and the
  `os.path.isdir` filter. The label file is given as a map from series to
  string pairs, and the result files as a list in discovery order. The
  report does not depend on that order (`Analysis.FileOrderIndependent`).
- The iteration order of Python dictionaries is a parameter, `order`. It
  must list the table's series once each, and the report is proved not to
  depend on it.
- `_getThreshold` and `_getWeights` read JSON configuration files. The
  threshold and the cost matrix are given values, so a missing detector or
  profile key is not modelled. The `score` that `_getThreshold` also
  returns is never used by the source.
- `datetime.strptime` with the format `%Y-%m-%d %H:%M:%S` is a parameter
  that maps text to an optional instant. Only the fraction truncation
  around it is modelled.
- Timestamps are integers on one time line, not `datetime` values.
- A result file's rows are given without their CSV header line. A file
  with no header at all, where `reader.next()` raises, is not modelled.
- Parsing of the `label` and `anomaly_score` columns is not modelled. A row
  carries the label as an integer and the score as a real. A malformed
  `int(...)` or `float(...)` column is not modelled either.
- Floating point is not modelled. Scores, weights and ceilings are exact
  reals, so float rounding of the weighted ceilings is left out.
- Printing is not modelled. The printed figures are the fields of
  `Analysis.Report`, and the printed series are its `offenders`, in order.
- A failed `assert` (a label that disagrees with window membership) ends
  the whole run, as it does in the source. It does not skip only that
  series.
- Result file names and label-file keys are modelled as the same kind of
  text. In the source, the path built from `os.listdir` at lines 51-56 is
  a byte string, while the keys `json.load` yields at lines 113-116 are
  Unicode strings. So a series whose name is not plain ASCII fails the
  lookup at line 57 with a `KeyError` in the source, but is found in the
  model.
- `main`, argument parsing and the module's path constants are not
  modelled.
- `scripts/plot_results.py` is not part of this model.
- The ranking order is kept as the code has it: ascending by missed
  windows, then by path, so the series missing the most windows is printed
  last. This differs from a descending "worst first" reading of the
  comment at line 102.
