# Network monitor: window engine, result log and handlers

`network-monitor-script.py` runs a speed test every hour. It appends each
measurement to the CSV log `network_log.csv` and serves a dashboard of the
log. This project models the sequential core of that script and proves
properties of it. The core has three parts.

- **The window engine.** This is the logic inside the dashboard handler `index`:
  - the table of selectable lookbacks;
  - the filter that keeps the rows stamped strictly after `now - lookback`, in log order;
  - the last test, which is the final row of that window;
  - the 24-hour slice and its per-metric means, absent when the slice is empty;
  - the chart ranges computed by `set_y_range`.

  Module `Window`, on the values of module `Records`.
- **The result log.** `log_results` writes the header row only when the file does not exist, then appends one five-field row. Module `ResultLog` models this: a `LogFile` class holds whether the file exists and its rows as a sequence, and its `LogResults` method appends.
- **The orchestration.** This covers `run_and_log`, the `run_test` response envelope, and `index` as a whole (read the log, look up the interval, summarize). Module `Monitor` models it. The speed test is an abstract outcome: a measurement or a failure.

Module `Scenarios` holds worked examples on small logs.

Timestamps are whole seconds. Metric values are `real`. The clock reading is a parameter.

Three behaviours of the code are easy to misread:

- The 24-hour slice is cut from the already-filtered window. With a lookback under a day, the "24-hour" averages therefore cover only the lookback (`Window.SliceIsClipped`, `Window.SummaryAverages`, `Scenarios.HourLookbackAverage`).
- The last test is the last row in log order, not the row with the latest timestamp. The two agree when timestamps never go backwards (`Window.LastOfAfter`, `Window.LastIsLatestWhenOrdered`).
- The filter is strict. A test logged at 10:00 is not in the one-hour window at 11:00 (`Scenarios.BoundaryRowExcluded`).

## Model

| member | source | states |
|---|---|---|
| Records.Value | network-monitor-script.py:157-159 | the download, upload and ping columns hold a record's download, upload and ping values |
| Records.Column | network-monitor-script.py:157-159 | a metric column has one entry per row, holding that row's value |
| Window.IntervalKey | network-monitor-script.py:120 | a missing `interval` parameter selects the default key "60", which is in the table; a given one is used as it is |
| Window.Lookback | network-monitor-script.py:120-146 | a missing parameter gives one hour; a given key succeeds exactly when it is in the table, otherwise it is an error carrying that key; a lookback is its key read as a number of minutes, between 15 minutes and 730 days |
| Window.LookbackKeysAreMinutes | network-monitor-script.py:125-142 | every key of the table, read as a decimal number, is its duration in minutes |
| Window.LookbackKeyIsMinutes | network-monitor-script.py:146 | the duration looked up for a key of the table is that key read as minutes |
| Window.After | network-monitor-script.py:148 | every row of the filtered sequence is stamped strictly after the bound |
| Window.AfterSnoc | network-monitor-script.py:148 | adding a row to the log adds it to the filtered sequence exactly when it is stamped after the bound |
| Window.AfterKeepsExactly | network-monitor-script.py:145-148 | the filtered sequence holds exactly the rows stamped after the bound, each as often as the log holds it, and no other row |
| Window.AfterKeepsOrder | network-monitor-script.py:148 | the filtered sequence is a subsequence of the log, so the log order is kept |
| Window.AfterAfter | network-monitor-script.py:148-155 | filtering twice equals filtering once at the later of the two bounds |
| Window.Last | network-monitor-script.py:151 | the last test is absent exactly for an empty window, and is otherwise its final row |
| Window.LastOfAfterAbsent | network-monitor-script.py:151 | there is no last test exactly when no row is stamped after the bound |
| Window.LastOfAfter | network-monitor-script.py:151 | the last test is the last row in log order that is stamped after the bound |
| Window.LastIsLatestWhenOrdered | network-monitor-script.py:151 | when timestamps never go backwards, the last test is at least as recent as every row of the window |
| Window.Sum | network-monitor-script.py:156-160 | the total of a column without negative values is non-negative |
| Window.Min | network-monitor-script.py:165 | the minimum is at most every value |
| Window.Max | network-monitor-script.py:166 | the maximum is at least every value |
| Window.MinIn | network-monitor-script.py:165 | the minimum is one of the values |
| Window.MaxIn | network-monitor-script.py:166 | the maximum is one of the values |
| Window.SumBounds | network-monitor-script.py:156-160 | the sum of n values that lie between lo and hi lies between lo added n times and hi added n times |
| Window.QuotientBounds | network-monitor-script.py:156-160 | the quotient of such a sum by n lies between lo and hi |
| Window.MeanBounds | network-monitor-script.py:156-160 | the total of a non-empty column divided by its count lies between the column's minimum and maximum |
| Window.Mean | network-monitor-script.py:156-160 | a mean is absent exactly for an empty column; otherwise it lies between the column's minimum and maximum |
| Window.YRange | network-monitor-script.py:162-168 | an empty column gives [0, 1]; otherwise the upper bound is the maximum plus a tenth of the spread, and the lower bound is either 0 or the minimum minus a tenth of the spread, never negative; every non-negative value lies inside the range, and for non-negative data lo ≤ min and lo ≤ hi |
| Window.View.Average | network-monitor-script.py:156-160 | a 24-hour average is absent exactly when the slice is empty, and otherwise lies between the slice's smallest and largest value of the metric |
| Window.View.AxisRange | network-monitor-script.py:170-173 | a chart of an empty window gets [0, 1]; every non-negative value of the window lies inside its chart's range |
| Window.Slice24h | network-monitor-script.py:154-155 | the 24-hour slice keeps the window's order and holds only rows less than a day old; Window.SliceIsClipped says which rows |
| Window.SliceIsClipped | network-monitor-script.py:154-155 | the 24-hour slice of the window holds the rows after the later of the lookback start and one day ago; with a lookback of a day or less it is the whole window |
| Window.Summarize | network-monitor-script.py:144-160 | the lookback starts at now minus the duration; every window row is after the start; every slice row is less than a day old |
| Window.SummaryWindowOrder | network-monitor-script.py:148 | the dashboard's window is a subsequence of the log |
| Window.SummaryWindowRows | network-monitor-script.py:145-148 | the window holds exactly the log's rows stamped after the lookback start, with their multiplicities |
| Window.SummaryLastTest | network-monitor-script.py:151 | the dashboard's last test is the last log row after the lookback start |
| Window.SummaryNoLastTest | network-monitor-script.py:151 | there is no last test exactly when no log row is after the lookback start |
| Window.SummaryAverages | network-monitor-script.py:153-160 | the averaged rows are the log rows after the later of the lookback start and one day ago; each average is absent exactly when there is none |
| Window.SummaryRanges | network-monitor-script.py:170-173 | every non-negative value of a charted window row lies inside that chart's y-range |
| ResultLog.EncodeRow | network-monitor-script.py:107 | a data row has as many fields as the header and is never equal to it |
| ResultLog.DecodeRow | network-monitor-script.py:121-122 | a row reads back as a record exactly when it has the five-field shape, and that record writes back to the same row |
| ResultLog.DecodeEncode | network-monitor-script.py:103-107 | a written row reads back as its record; the header never reads as a record and never equals a data row |
| ResultLog.EncodeRows | network-monitor-script.py:107 | writing records gives one row per record, in order |
| ResultLog.DecodeRows | network-monitor-script.py:121-122 | no data rows read as no records, and a successful read gives one record per row; ResultLog.DecodeRowsSpec gives the rest |
| ResultLog.DecodeRowsSpec | network-monitor-script.py:121-122 | reading data rows fails exactly when some row is malformed; otherwise the rows are read one for one, in order |
| ResultLog.DecodeEncodeRows | network-monitor-script.py:105-107 | the rows written for a series of records read back as that series |
| ResultLog.ReadLog | network-monitor-script.py:121-122 | the log reads successfully exactly when the file exists, is non-empty, starts with the header and its data rows are well formed |
| ResultLog.Appended | network-monitor-script.py:100-107 | appending to an existing file keeps every earlier row and adds one; a missing file becomes the header followed by the new row; the last row is always the new record's |
| ResultLog.ReadAfterAppend | network-monitor-script.py:100-107 | after one append the log reads back as before with the new record at the end; a file that did not exist reads back as that record alone |
| ResultLog.LogAll | network-monitor-script.py:96-109 | a series of calls adds one row per call, plus one header row when it starts without a file |
| ResultLog.LogAllExisting | network-monitor-script.py:105-107 | appending a series of records to an existing file adds exactly their rows after the existing ones |
| ResultLog.LogAllFromNothingRows | network-monitor-script.py:100-107 | starting with no file, a series of calls leaves the header followed by one row per call |
| ResultLog.LogAllFromNothing | network-monitor-script.py:100-107 | starting with no file, the header is written exactly once, at the top, and the file reads back as the records logged |
| ResultLog.LogFile.constructor | network-monitor-script.py:98-100 | a log file starts in the given state |
| ResultLog.LogFile.LogResults | network-monitor-script.py:96-109 | the file exists afterwards; the header is added only if it was missing; exactly one row is appended, the earlier rows are unchanged, and a readable log reads back with the new record at its end |
| Monitor.Logged | network-monitor-script.py:113-114 | the row logged for a measurement holds the clock reading, download, upload, ping and server, in that order |
| Monitor.RunAndLog | network-monitor-script.py:111-116 | a failed probe leaves the log as it was; a measurement appends exactly its row |
| Monitor.Response | network-monitor-script.py:190-209 | success holds exactly for a measurement; data is present exactly on success and carries the four measured values; the status is 200 on success and 500 otherwise; a failure's message is the error prefix followed by the error text |
| Monitor.MessageTellsOutcome | network-monitor-script.py:195-208 | a response succeeded exactly when its message does not begin with the error prefix |
| Monitor.RunTest | network-monitor-script.py:188-209 | the handler's answer is the response for the probe outcome; the log changes as in RunAndLog |
| Monitor.Index | network-monitor-script.py:118-160 | an unreadable log is reported before the interval is looked up; a readable log gives a page exactly when the interval is in the table; an unknown key is reported as given; a page summarizes the log with the key read as minutes |
| Monitor.LoggedTestIsShown | network-monitor-script.py:145-160 | right after a test is logged, the dashboard at that moment shows it as the last test under every interval, and every 24-hour average is present |
| Scenarios.BoundaryRowExcluded | network-monitor-script.py:145-148 | a test logged at 10:00 is outside the one-hour window at 11:00: no last test, no average, default range |
| Scenarios.HeaderOnlyPage | network-monitor-script.py:118-168 | a header-only log gives a one-hour dashboard with an empty window, no last test, no averages and the range [0, 1] |
| Scenarios.UnknownIntervalPage | network-monitor-script.py:121-146 | an unknown interval is an error, but a missing log is reported first |
| Scenarios.HourLookbackAverage | network-monitor-script.py:153-160 | with a one-hour lookback only the row in that hour is averaged, although an older row is also less than a day old |
| Scenarios.SixtyDayLookbackAverage | network-monitor-script.py:153-160 | with a sixty-day lookback the same log averages both rows |
| Scenarios.JobThenHandler | network-monitor-script.py:111-116 | a failed job run writes nothing; a job measurement followed by a handler measurement reads back in logging order, and the handler answers 200 with success |

## Left out

- Dependency checking and the interactive `pip` installation: these are process and environment I/O.
- `get_ip_address`: this is network I/O.
- The speed test itself, the `/ 1_000_000` conversion to Mbps and the server label. The probe is modelled only as its outcome: a measurement or a failure.
- The speed test's exception classes appear only as `ProbeError` variants that carry their text. The messages printed for each class are left out.
- Printing to the console is left out.
- Text formatting: the timestamp format `%Y-%m-%d %H:%M:%S`, the two-decimal formatting of the logged and reported values, and CSV quoting. Cells keep their values, so reading a row back gives the exact values written, where the program would read back the rounded ones.
- ResultLog.ReadLog: requires the first row to be exactly the header and every data row to have the five-field shape. The program's CSV reader accepts other headers and reports any failure as its own exception; the model reports the kind of failure instead.
- NaN: an empty slice gives an absent mean (`None`), not NaN.
- Floating point: all arithmetic is exact real arithmetic.
- ResultLog.LogFile.LogResults: assumes the file writes succeed. An I/O failure inside `log_results` is not modelled, so `run_and_log` and `run_test` never see one.
- Plotly figures, the x-axis range and tick format, `render_template` and the Flask routing and server: these are presentation and foreign calls. `Monitor.Index` returns the data the page is built from.
- The hourly `schedule` loop, the Flask thread and the `__main__` start-up: these are scheduling, concurrency and process start-up. Two writers to the log are never interleaved in the model.
- Window.YRange: states the lower bound as "0 or the buffered minimum, never negative" rather than as the maximum of the two.
