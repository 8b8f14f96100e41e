# Gas exposure analytics, modelled in Dafny

This project models the core of the Pyrrha gas-exposure engine (`src/GasExposureAnalytics.py`).
The engine runs once a minute. It reads the last few hours of the firefighter sensor log and
snaps each firefighter's rows onto a one-row-per-minute grid. For every configured time window
(for example 10 minutes, 1 hour, 8 hours) and every supported gas (carbon monoxide, nitrogen
dioxide) it then computes:

- the time-weighted average (TWA), scaled down by how much of the window the firefighter's data
  actually covers and rounded to a per-gas number of decimals;
- the limit gauge, the TWA as a whole-number percentage of the window's exposure limit.

The overall status of the firefighter (GREEN, YELLOW, RED or RANGE_EXCEEDED) comes from the
largest gauge. A device writes a negative value when its sensor's range was exceeded. That
sentinel dominates every average it enters and is reported as -1. At start-up the
configuration is validated. Across runs the engine keeps a cache of each firefighter's earliest
and latest observed minute; the cache is reset once the log has no row in the longest window.

Modules, one file each:

| file | module | what it holds |
|---|---|---|
| `wrappers.dfy` | `Wrappers` | `Option` (None / NaN / NaT in the source) |
| `exposure_config.dfy` | `ExposureConfig` | the configuration document, the status and sensor-range constants |
| `sensor_log.dfy` | `SensorLog` | sensor rows keyed by minute; the inclusive time-range read |
| `readings.dfy` | `Readings` | a sample as `Measured(ppm) | RangeExceeded | Absent` (+inf and NaN in the source); mean, coverage scaling, rounding, gauge, report |
| `coverage.dfy` | `Coverage` | per-firefighter spans, their merge into the cache, window overlap and proportion |
| `quantization.dfy` | `Quantization` | the per-minute grid (resample, nearest row at most one minute away) |
| `status_classification.dfy` | `StatusClassification` | the right-closed status bins and the row maximum |
| `config_validation.dfy` | `ConfigValidation` | start-up validation: a method with its loops, proved against a report function |
| `aggregation.dfy` | `Aggregation` | one minute of analytics: the loop over windows, proved against `AnalyticsFor` |
| `aggregation_facts.dfy` | `AggregationFacts` | what one minute of analytics promises, cell by cell and row by row |
| `engine.dfy` | `Engine` | the engine class with its cache field, the block read, `RunAnalytics`, end-to-end lemmas |

Representation choices:

- Timestamps are whole minutes (`int`). The wall clock given to `RunAnalytics` is in seconds.
  Dafny's Euclidean division floors, as `Timestamp.floor('min')` does.
- Numbers are exact reals. `RoundTo` is numpy's half-to-even rounding on exact reals.
- A window's TWA and gauge are those of its cells, keyed by window index and gas. The source's
  column names (`carbon_monoxide_twa_10min`) are not modelled.
- Validation yields a `Report` of critical issues and warnings (what is logged), plus a
  `crashed` flag. `crashed` stands for a `KeyError`/`IndexError` raised before the final
  assertion: no window at all, a supported gas missing from a window or from the sensor-range
  table, or a gas with no rounding factor.
- The cache (`_FF_TIME_SPANS_CACHE`) is the field `ffTimeSpansCache` of the class
  `Engine.GasExposureAnalytics`. A ghost field `seen` records the rows read since the last
  reset. `Valid()` says the cache is exactly the spans of `seen`.
- The source's `assert` that no window holds more rows than it has minutes
  (`src/GasExposureAnalytics.py:399`) is proved, inside the window loop, for every grid.

Where the code and its comments disagree, the model follows the code:

- The comment at src/GasExposureAnalytics.py:416-421 scales the TWA by the elapsed share of
  the window, assuming zero exposure before the first recorded value. A firefighter's
  first-ever reading therefore gets a TWA of 0, not the reading over the window length: their
  span starts at the minute key, so the window coverage is 0.
- The name `RED_RANGE_START = 99` (src/GasExposureAnalytics.py:39) suggests that RED starts
  at 99, but a gauge of exactly 99 is YELLOW. The bins are right-closed, so 99 does not fall in
  RED.
- The comment at src/GasExposureAnalytics.py:339-340 says the range-exceeded sentinel "flows
  correctly through the time-weighted average". At a first-ever reading it is lost: +inf times
  a coverage of 0 is NaN, so the cell is reported null.
- The comment at src/GasExposureAnalytics.py:120 asks for a yellow percentage "between 1 and
  99". The check accepts 0 < y < 100, but statuses can only be computed for 1 < y < 100 (see
  Findings).

## Model

Source paths are relative to the repository root.

| member | source | states |
|---|---|---|
| ExposureConfig.LongestWindowMins | src/GasExposureAnalytics.py:242 | the longest window length is at least every window's length and is the length of one of them |
| Readings.Tag | src/GasExposureAnalytics.py:341-343 | masking: range exceeded exactly for a negative value, missing exactly for null, otherwise the same non-negative value |
| Readings.MeanAbsentIff | src/GasExposureAnalytics.py:413 | a window's mean is missing exactly when every sample is missing (no measurement, no sentinel) |
| Readings.MeanWithinBounds | src/GasExposureAnalytics.py:408-413 | the mean of the available samples lies within any bounds on the measured samples; missing samples never pull it toward 0 |
| Readings.MeanIgnoresAbsent | src/GasExposureAnalytics.py:411-413 | appending a missing sample leaves the mean unchanged (the denominator counts available samples only) |
| Readings.MeanDominatedBySentinel | src/GasExposureAnalytics.py:339-340 | one range-exceeded sample anywhere makes the mean range exceeded |
| Readings.MeanNonNegative | src/GasExposureAnalytics.py:413 | the mean of non-negative samples is non-negative |
| Readings.ScaleBy | src/GasExposureAnalytics.py:450 | scaling by a coverage proportion keeps non-negativity and never increases a value; +inf stays the sentinel only for a positive proportion, and times 0 it becomes missing |
| Readings.RoundHalfEven | src/GasExposureAnalytics.py:452 | the result is within 0.5 of the input, non-negative for non-negative input, and exact for integers |
| Readings.RoundTo | src/GasExposureAnalytics.py:452 | rounding to k decimals gives at most k decimals, within half a unit of the k-th decimal, non-negative for non-negative input, and leaves a k-decimal value alone |
| Readings.RoundAtScale | src/GasExposureAnalytics.py:452 | rounding to a multiple of 1/p gives such a multiple, within 0.5/p of the input, non-negative for non-negative input, and leaves a multiple of 1/p alone |
| Readings.RoundReading | src/GasExposureAnalytics.py:451-452 | rounding keeps the sentinel and missing values, keeps non-negativity, and leaves at most k decimals |
| Readings.GaugeOf | src/GasExposureAnalytics.py:462-464 | the gauge is a whole number within 0.5 of TWA × 100 / limit; the sentinel and missing values carry over |
| Readings.ReportIsInjective | src/GasExposureAnalytics.py:494-497 | replacing +inf by -1 loses nothing: two non-negative readings with the same report are equal |
| SensorLog.RowsBetween | src/GasExposureAnalytics.py:254-261 | the block holds exactly the log rows whose minute lies in [start, end], both ends included |
| Coverage.SpansOf | src/GasExposureAnalytics.py:282-285 | there is a span exactly for the firefighters with rows in the block, and each starts no later than it ends |
| Coverage.SpansOfIsMinMax | src/GasExposureAnalytics.py:282-285 | a span runs from the earliest to the latest minute of the firefighter's rows, both attained |
| Coverage.MergeSpans | src/GasExposureAnalytics.py:286-296 | the merge covers the firefighters of both sides; one-sided entries are kept; a start is the earlier of the two and an end the later |
| Coverage.MergeSpansOfBlocks | src/GasExposureAnalytics.py:286-296 | merging a block's spans into the spans of the rows seen before gives the spans of all rows seen |
| Coverage.MergeIdempotent | src/GasExposureAnalytics.py:292-296 | merging the same block twice changes nothing more than merging it once |
| Coverage.OverlapMins | src/GasExposureAnalytics.py:433-442 | the overlap of a span with the window (t − len, t] lies in [0, len], and is positive exactly when the span starts before t, ends after t − len and is not a single minute |
| Coverage.ProportionOfWindow | src/GasExposureAnalytics.py:444-446 | the proportion is in [0, 1] with proportion × len = overlap; it is 1 exactly when the span covers the whole window, and 0 at a first reading (the span starts at t) |
| Quantization.FindRow | src/GasExposureAnalytics.py:355-359 | the row found is the firefighter's row of that minute, and none is found exactly when there is none |
| Quantization.NearestRow | src/GasExposureAnalytics.py:355-359 | a minute's own row is used when there is one; otherwise a row at most one minute away; none exactly when the minute and both neighbours have no row |
| Quantization.QuantizeFf | src/GasExposureAnalytics.py:355-359 | a firefighter's grid has one slot per minute of their span, end points included |
| Quantization.Quantize | src/GasExposureAnalytics.py:355-359 | there is a grid exactly for the firefighters present in the rows |
| Quantization.QuantizedSlots | src/GasExposureAnalytics.py:355-359 | every slot holds one of the firefighter's own rows at most a minute away, and a minute with its own row uses it |
| Quantization.PresentInMembers | src/GasExposureAnalytics.py:392 | a row is among the grid rows for [lo, hi] exactly when the slot of some minute in [lo, hi] holds it |
| Quantization.PresentInCount | src/GasExposureAnalytics.py:398-399 | the grid holds at most one row per minute of [lo, hi] that it covers |
| Quantization.WindowRowsAtMostLen | src/GasExposureAnalytics.py:398-399 | a window of len minutes never holds more than len rows of one firefighter, so the source's assertion always holds |
| Quantization.SlotInRange | src/GasExposureAnalytics.py:392 | a row held by the slot of a minute in [lo, hi] is among the grid rows for [lo, hi] |
| Quantization.RowInRangeHasSlot | src/GasExposureAnalytics.py:392 | a grid row for [lo, hi] comes from the slot of a minute in [lo, hi] |
| Quantization.WindowRowsAreNearby | src/GasExposureAnalytics.py:355-359 | every row a firefighter has in a window of the grid is one of their rows, captured in the window or one minute outside it |
| Quantization.ObservedRowSlot | src/GasExposureAnalytics.py:355-359 | with one row per firefighter and minute, a row is the row of its own minute's slot |
| Quantization.ObservedRowAppears | src/GasExposureAnalytics.py:388-392 | with one row per firefighter and minute, a row captured in a window is among that window's grid rows |
| Quantization.ObservedMinuteSlot | src/GasExposureAnalytics.py:355-359 | a minute in which the firefighter has a row gets a slot holding a row of that minute |
| Quantization.InWindowFromRow | src/GasExposureAnalytics.py:388-396 | a row captured inside a window puts its firefighter among that window's rows |
| Quantization.RowFromInWindow | src/GasExposureAnalytics.py:388-396 | a firefighter among a window's rows has a row captured in the window or one minute outside it |
| Quantization.LastMinuteSlotIff | src/GasExposureAnalytics.py:365 | when no row is later than minute m, the grid holds a row for m exactly when the firefighter has a row in m |
| StatusClassification.Classify | src/GasExposureAnalytics.py:485-489 | the cut into [0, y − 1], (y − 1, 99], (99, 99000], (99000, ∞]: each status exactly on its bin, none below 0 |
| StatusClassification.ClassifyMonotone | src/GasExposureAnalytics.py:485-489 | a higher gauge never gives a safer status |
| StatusClassification.MaxGauge | src/GasExposureAnalytics.py:487 | the row maximum is the sentinel exactly when some gauge is, missing exactly when all are, otherwise the largest measured gauge |
| StatusClassification.StatusRangeExceededIff | src/GasExposureAnalytics.py:483-489 | RANGE_EXCEEDED exactly when some gauge is the sentinel or above 99000 |
| StatusClassification.StatusUnavailableIff | src/GasExposureAnalytics.py:486-489 | no status exactly when every gauge is missing |
| StatusClassification.StatusGreenIff | src/GasExposureAnalytics.py:485-489 | GREEN exactly when there is a gauge, no sentinel and every gauge is at most y − 1 |
| StatusClassification.StatusYellowIff | src/GasExposureAnalytics.py:485-489 | YELLOW exactly when, with no sentinel, some gauge is above y − 1 and none above 99 |
| StatusClassification.StatusRedIff | src/GasExposureAnalytics.py:485-489 | RED exactly when, with no sentinel, some gauge is above 99 and none above 99000 |
| ConfigValidation.MismatchedWindows | src/GasExposureAnalytics.py:72 | exactly the indices of the windows whose gas set differs from the first window's |
| ConfigValidation.SeqMin | src/GasExposureAnalytics.py:107 | the minimum is at most every limit and is one of them |
| ConfigValidation.SeqMax | src/GasExposureAnalytics.py:107 | the maximum is at least every limit and is one of them |
| ConfigValidation.CheckSensorRanges | src/GasExposureAnalytics.py:105-118 | the loop over supported gases yields the report of the range phase |
| ConfigValidation.CheckGasRange | src/GasExposureAnalytics.py:106-117 | one gas whose limits and sensor range exist adds the out-of-range issue exactly when its limits leave the sensor range, and the near-maximum warning exactly when twice its largest limit exceeds the sensor maximum |
| ConfigValidation.CheckRoundingFactors | src/GasExposureAnalytics.py:129-135 | the loop over supported gases yields the report of the rounding phase |
| ConfigValidation.ValidateConfig | src/GasExposureAnalytics.py:65-150 | the validation method yields exactly `ConfigReport`, on which the lemmas below are proved |
| ConfigValidation.RangePhaseStopsAtCrash | src/GasExposureAnalytics.py:105-107 | once a lookup has raised, the remaining gases change nothing |
| ConfigValidation.RoundingPhaseStopsAtCrash | src/GasExposureAnalytics.py:129-130 | once a lookup has raised, the remaining gases change nothing |
| ConfigValidation.RangeStepFlags | src/GasExposureAnalytics.py:107-113 | min/max of the limits outside the sensor range exactly when some window's limit is; twice the maximum above the sensor maximum exactly when some window's is |
| ConfigValidation.RangePhaseFacts | src/GasExposureAnalytics.py:105-118 | the range checks raise exactly when a gas cannot be looked up, only append, and log one out-of-range issue and one near-maximum warning per gas that deserves it |
| ConfigValidation.RoundingPhaseFacts | src/GasExposureAnalytics.py:129-135 | the rounding checks raise exactly when a gas has no factor, add no warning, and log exactly the gases with a non-integer or negative factor |
| ConfigValidation.ConfigCrashIff | src/GasExposureAnalytics.py:84-130 | validation raises exactly when there is no window or a supported gas cannot be looked up |
| ConfigValidation.MissingGasIsLoggedThenCrashes | src/GasExposureAnalytics.py:84-107 | a supported gas missing from the first window is logged as critical and then its limit lookup raises |
| ConfigValidation.ReportMembership | src/GasExposureAnalytics.py:65-148 | in a report that did not crash, each critical issue and each warning is present exactly when its rule is broken |
| ConfigValidation.LoggedIssuesAreGenuine | src/GasExposureAnalytics.py:65-143 | every logged critical issue, even before a crash, comes from a broken rule of its kind |
| ConfigValidation.GasSetIssuesIff | src/GasExposureAnalytics.py:72-89 | one mismatch issue listing exactly the mismatched windows, present exactly when some window differs; the unlimited-gas issue exactly when a supported gas has no limit in the first window |
| ConfigValidation.GasSetIssuesAlwaysLogged | src/GasExposureAnalytics.py:72-89 | the gas-set issues are logged even when a later lookup raises |
| ConfigValidation.AcceptsIff | src/GasExposureAnalytics.py:65-150 | validation accepts exactly the sound configurations (same gases in every window, limits within sensor range, 0 < y < 100, non-negative integer rounding factors and autofill) |
| ConfigValidation.AcceptedIsWellFormed | src/GasExposureAnalytics.py:65-150 | an accepted configuration gives the engine everything it relies on (a window, a positive limit per gas and window, integer factors) |
| ConfigValidation.ValidatorAdmitsUnorderedBins | src/GasExposureAnalytics.py:120-126 | a configuration with y = 0.5 is accepted although its status bins do not increase |
| ConfigValidation.StrictYellowIssue | src/GasExposureAnalytics.py:120-126 | the corrected yellow rule passes exactly when the status bins increase, and only inside the original range |
| ConfigValidation.AcceptsCorrectedIff | src/GasExposureAnalytics.py:120-126 | the corrected validation accepts exactly the sound configurations with 1 < y < 100, all of them well formed |
| Aggregation.WindowCell | src/GasExposureAnalytics.py:413-464 | every cell is well behaved: non-negative, TWA and gauge range exceeded together and missing together, the TWA with the gas's decimals, the gauge the nearest whole percentage of the limit |
| Aggregation.FfTable | src/GasExposureAnalytics.py:450-464 | a firefighter's cells in a window are keyed exactly by the supported gases |
| Aggregation.WindowTable | src/GasExposureAnalytics.py:388-464 | every firefighter of a window table has a cell for exactly the supported gases |
| Aggregation.WindowTables | src/GasExposureAnalytics.py:383-396 | a window has a table exactly when it holds some firefighter's rows (an empty window is skipped) |
| Aggregation.WindowTablesValue | src/GasExposureAnalytics.py:383-472 | the table kept for a window is that window's table |
| Aggregation.CellGauges | src/GasExposureAnalytics.py:487 | one gauge per supported gas |
| Aggregation.LiveFrom | src/GasExposureAnalytics.py:341-343 | live readings: a supported gas reads -1 exactly when negative, null exactly when null, else its value; other columns pass through |
| Aggregation.CalculateTwaAndGaugeForAllFirefighters | src/GasExposureAnalytics.py:318-503 | the loop over windows yields exactly `AnalyticsFor`, on which the lemmas of `AggregationFacts` are proved |
| AggregationFacts.TablesEntry | src/GasExposureAnalytics.py:383-472 | an entry of any kept table is the cell computed from the firefighter's window rows |
| AggregationFacts.SentinelCell | src/GasExposureAnalytics.py:339-343 | one negative sample, with positive coverage, makes both the TWA and the gauge the sentinel |
| AggregationFacts.FirstMinuteCell | src/GasExposureAnalytics.py:420-450 | at a first-ever reading every cell is 0/0 or missing/missing |
| AggregationFacts.TablesAreGood | src/GasExposureAnalytics.py:383-464 | every kept table is for a configured window, with exactly the supported gases and non-negative gauges |
| AggregationFacts.GaugesOfMembers | src/GasExposureAnalytics.py:487 | the gauges a row's status is computed from are exactly the gauges of its cells |
| AggregationFacts.RowGauges | src/GasExposureAnalytics.py:487-497 | the gauges of a row are non-negative and report exactly the row's reported gauges |
| AggregationFacts.StatusFromReports | src/GasExposureAnalytics.py:483-497 | the classified maximum of the gauges is the status their reports call for (all five cases, both directions) |
| AggregationFacts.ZeroGaugesStatus | src/GasExposureAnalytics.py:485-489 | gauges that are all 0 or missing give GREEN or no status |
| AggregationFacts.ZeroCellsGauges | src/GasExposureAnalytics.py:494-497 | cells that are all 0 or missing report gauges that are all 0 or missing |
| AggregationFacts.InWindowGivesResult | src/GasExposureAnalytics.py:388-472 | a firefighter among a window's rows gets results for that window |
| AggregationFacts.ResultsIff | src/GasExposureAnalytics.py:388-472 | a row has results for a window exactly when the window is configured, positive and holds the firefighter's rows |
| AggregationFacts.ResultCell | src/GasExposureAnalytics.py:413-472 | a row's results for a window hold exactly the supported gases, each the reported cell of the firefighter's window rows |
| AggregationFacts.AnalyticsRowsIff | src/GasExposureAnalytics.py:327-329 | the analytics have a row exactly for the firefighters with a row in the longest window |
| AggregationFacts.WindowResultIff | src/GasExposureAnalytics.py:388-396 | a row in a window gives results for it; results imply a row in the window or the minute before; results hold exactly the supported gases |
| AggregationFacts.ReportCellFacts | src/GasExposureAnalytics.py:494-497 | a well-behaved cell reports a well-behaved cell (-1 together, null together, decimals and gauge kept) |
| AggregationFacts.ReportedCellFacts | src/GasExposureAnalytics.py:450-497 | every reported TWA and gauge: -1 together, null together, otherwise a non-negative TWA with the gas's decimals and its nearest whole percentage of the limit |
| AggregationFacts.AnalyticsStatus | src/GasExposureAnalytics.py:483-497 | a row's status is the one its reported gauges call for: none exactly when all are null, RANGE_EXCEEDED exactly on a -1 or a gauge above 99000, else GREEN/YELLOW/RED by the largest gauge |
| AggregationFacts.SentinelReported | src/GasExposureAnalytics.py:339-343 | a negative reading in a window, with positive coverage, is reported as TWA -1 and gauge -1 for that window and gas |
| AggregationFacts.SentinelDominates | src/GasExposureAnalytics.py:339-343 | the same reading makes the firefighter's status RANGE_EXCEEDED |
| AggregationFacts.FirstReadingCells | src/GasExposureAnalytics.py:420-421 | at a first-ever reading every reported TWA and gauge is 0 or null, never -1 |
| AggregationFacts.FirstReadingStatus | src/GasExposureAnalytics.py:420-421 | at a first-ever reading the status is GREEN or none |
| AggregationFacts.LiveIff | src/GasExposureAnalytics.py:364-380 | a row carries live readings exactly when the firefighter has a row captured in the minute itself, and with one row per minute they are that row's |
| AggregationFacts.LiveInGrid | src/GasExposureAnalytics.py:364-375 | the same, stated on the grid of the longest window |
| AggregationFacts.LiveAtFacts | src/GasExposureAnalytics.py:364-375 | on rows ending at minute t, the grid has live readings at t exactly when some row is captured in t, and they come from such a row |
| Engine.MinuteKey | src/GasExposureAnalytics.py:524-529 | the minute key is the minute before the current one: 60(t + 1) ≤ now < 60(t + 2) |
| Engine.ReadBlockRows | src/GasExposureAnalytics.py:241-269 | the block holds exactly the rows of the last `longest` minutes; the cache is reset exactly when there are none |
| Engine.ReadBlockRecordsSeen | src/GasExposureAnalytics.py:263-296 | the cache holds exactly the earliest and latest minute of every row seen since it was last reset |
| Engine.ReadBlockWidens | src/GasExposureAnalytics.py:286-296 | a read never narrows a cached span, and a firefighter absent from the block keeps theirs |
| Engine.ReadBlockCovers | src/GasExposureAnalytics.py:282-306 | every row of the block lies within its firefighter's working span, which reaches the autofill buffer past it |
| Engine.ReadBlockIdempotent | src/GasExposureAnalytics.py:286-306 | reading the same block again changes neither the cache nor what is returned |
| Engine.TickRows | src/GasExposureAnalytics.py:545-551 | a run has no analytics exactly when the log has no row in the longest window, else a row for exactly the firefighters with one |
| Engine.TickSentinel | src/GasExposureAnalytics.py:339-343 | end to end: a negative reading in any window gives RANGE_EXCEEDED, provided an earlier row of the firefighter is in the block |
| Engine.TickLive | src/GasExposureAnalytics.py:364-380 | end to end: live readings are present exactly when the log has a row of the firefighter in the minute key |
| Engine.TickFirstReading | src/GasExposureAnalytics.py:420-421 | end to end: at a first-ever reading the status is GREEN or none, whatever the reading |
| Engine.TickIdempotent | src/GasExposureAnalytics.py:510-556 | running twice for the same minute gives the same cache and the same analytics |
| Engine.GasExposureAnalytics.constructor | src/GasExposureAnalytics.py:160-201 | an engine over an accepted configuration starts with nothing cached |
| Engine.GasExposureAnalytics.GetBlockOfSensorReadings | src/GasExposureAnalytics.py:236-308 | the method returns the block and working spans of `ReadBlock` and leaves the cache as `ReadBlock` says, keeping `Valid()` |
| Engine.GasExposureAnalytics.RunAnalytics | src/GasExposureAnalytics.py:510-556 | the method returns the analytics of `Tick` (none when the block is empty) and leaves the cache as `Tick` says |
| Engine.Open | src/GasExposureAnalytics.py:200-201 | an engine is created exactly when the corrected validation accepts the configuration |

## Left out

- Reading the configuration file, the database connection, the SQL query text, CSV input and logging. The log is a parameter of each run.
- The wall clock: `RunAnalytics` takes the time in seconds as a parameter. Time zones are not modelled.
- Writing results (`to_sql`), the `commit` flag, column names and their sorted order.
- Floating point: values are exact reals. `float` conversion of limits and `numpy` rounding artefacts are not modelled.
- Several rows of one firefighter in one minute. Log rows are keyed on the floor of their minute (src/GasExposureAnalytics.py:232-234 and :524), so such rows share a timestamp. The nearest-row resampling at :358 reindexes each firefighter's rows, and pandas rejects duplicate timestamps there with a ValueError, so the source fails the run instead of choosing a row. The model does not raise. It keeps the first row in log order. The source's stated input is exactly one reading per minute (:406).
- Window lengths are whole minutes (`mins: int`). The source never checks `mins`, and a fractional JSON number would flow into `pd.Timedelta` (:389), the proportion at :446 and the maximum at :242. A fractional `mins` is not modelled.
- JSON values other than integers and floats (booleans, strings) in the configuration.
- The window order (src/GasExposureAnalytics.py:321). Results are keyed by window index, so the descending-length order changes nothing. Two windows with the same length would clash in the source's column names; that clash is not modelled.
- Rows of firefighters with no id (`FfId` is a string, so the log holds none). Beside rows with an id they never reach the results, because the groupby at src/GasExposureAnalytics.py:357 drops them. A block holding only id-less rows differs: it is not empty at :263, so the source keeps the cache (:282-296) and goes past :548, and then `pd.concat` of nothing at :475 raises. The model sees an empty block, resets the cache and returns no analytics, so a firefighter seen again later gets a new earliest minute in the model but keeps the old one in the source.
- The all-null rows resampling adds between readings. They never reach the results: a window that holds one also holds a real row, and the live minute's slot exists only for a row in that minute.
- `src/prometeoAnalytics.py`, `src/core_decision_flask_app.py`, `websocket-client.py` and the tests are not part of this model.
- AggregationFacts.SentinelReported: requires one row per firefighter and minute. Those are exactly the inputs on which the resampling at src/GasExposureAnalytics.py:358 does not raise, so the source returns nothing on the others.
- AggregationFacts.SentinelDominates: requires one row per firefighter and minute, the only inputs on which the source returns, as above.
- Engine.TickSentinel: requires one row per firefighter and minute, the only inputs on which the source returns, as above.
- AggregationFacts.FirstReadingCells: stated as "0 or null" rather than giving the exact per-gas value.
- AggregationFacts.LiveIff: the value of the live readings is only stated under one row per firefighter and minute, the only inputs on which the source returns (src/GasExposureAnalytics.py:358, as above).
- Engine.GasExposureAnalytics.constructor: requires the corrected validation to accept. The source raises on rejection, which is `Engine.Open`.
- Engine.Open: refuses a yellow percentage 0 < y ≤ 1, which the source's `__init__` accepts at src/GasExposureAnalytics.py:200-201 (its runs then fail at `pd.cut`; see Findings).

## Findings

| source | as written | input that shows it | evidently intended | confidence | as-written member | corrected member |
|---|---|---|---|---|---|---|
| src/GasExposureAnalytics.py:120-126 | the yellow check accepts 0 < y < 100 | y = 0.5 (or y = 1): the bins [0, y − 1, 99, 99000, ∞] at :488 do not strictly increase, so `pd.cut` raises on every run with a non-empty block (an empty block returns first at :548) | reject y ≤ 1, so that the status bins increase (the comment at :120 says "between 1 and 99") | not executed | ConfigValidation.ValidatorAdmitsUnorderedBins | ConfigValidation.AcceptsCorrectedIff |
