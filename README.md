# F1 lap-data aggregation, modelled in Dafny

`streamlit-f1-app.py` is a Streamlit dashboard over timing data from the fastf1
library. The only logic it has of its own is a small aggregation pipeline. This
project models that pipeline:

- **Lap table** (`create_lap_time_chart`). The builder walks the selected drivers
  in selection order, and each driver's laps in the provider's order. It keeps
  only laps with a lap time. It copies the lap number and the compound cell (a
  null cell stays null; "Unknown" only when the record has no Compound field at
  all) and keeps each sector time as "value or null". It returns `None` instead of an empty table.
- **Sector averages** (`groupby('Driver').mean()`). For each driver abbreviation
  in the lap table, each sector's mean over that driver's non-null values. The
  cell is NaN when the driver has none.
- **Fastest-laps table**. One row per selected driver that has a fastest lap,
  sorted ascending by time.
- **Average-lap-times table**. One row per selected driver with a non-empty lap
  list: the mean of the non-null lap times, and `Laps Completed` = the length of
  the whole lap list. Sorted ascending by average time.
- **Telemetry chart**. A truthy lap number picks the laps with that number;
  otherwise the provider's fastest lap is used. The chart draws speed, throttle
  and brake (brake × 100) against distance.

Durations are whole milliseconds (`nat`). A null (NaT) cell is `Option.None`.
Means are `real`. The provider's answers are inputs: a `Session` maps each driver
identifier to its abbreviation, its lap list (`pick_driver`) and its fastest lap
(`pick_fastest`). The selected lap's telemetry (`get_telemetry`) is a parameter.

Files: `wrappers.dfy` (Option), `laps.dfy` (session data), `stats.dfy`
(skip-null means), `sorting.dfy` (sort by a time column, nulls last),
`lap_table.dfy`, `sector_averages.dfy`, `session_stats.dfy`, `telemetry.dfy`,
`scenarios.dfy` (a worked two-driver example).

Two behaviours of the code are easy to misread:

- `Laps Completed` is `len(driver_laps)`, so laps with a null lap time count
  too (line 274), and the count can exceed the number of timed laps.
  See `SessionStats.LapsCompletedCountsNullLaps`.
- With an explicit lap number, `pick_lap` returns a lap frame, which is never
  `None`. So the `lap is not None` test (line 89) passes even when no lap has
  that number. See `TelemetryPlot.GivenLapNumberAlwaysSelected`.

The selected drivers are a list in selection order, not a set.

## Model

| member | source | states |
|---|---|---|
| LapTable.BuildLapTable | streamlit-f1-app.py:59-80 | The nested append loops build exactly the lap-table rows of the selected drivers. The result is `None` exactly when that table is empty. |
| LapTable.LapTableEmptyIff | streamlit-f1-app.py:63-68 | The table is empty (so the result is `None`) exactly when no lap of any selected driver has a lap time. This includes the case of no drivers. |
| LapTable.LapRowsSound | streamlit-f1-app.py:63-78 | Every row reports a timed lap of a selected driver. It carries the driver's abbreviation, lap number and lap time, the lap's own sector cells (null stays null), and the compound: the lap's Compound cell, null included, when the record has that field, and "Unknown" only when it has none. |
| LapTable.LapRowsComplete | streamlit-f1-app.py:63-78 | Every timed lap of every selected driver is reported by some row. |
| LapTable.LapRowsCount | streamlit-f1-app.py:67-68 | The number of rows equals the number of selected laps with a present lap time. |
| LapTable.LapRowsAppend | streamlit-f1-app.py:63 | Rows are grouped by driver in selection order: the table for `ds1 + ds2` is the table for `ds1` followed by the table for `ds2`. |
| LapTable.LapRowsGroup | streamlit-f1-app.py:63-78 | The rows of the `i`-th selected driver sit at positions from the number of timed laps of the drivers before it up to that number plus its own, and that slice is exactly that driver's lap rows. |
| LapTable.DriverRowsAppend | streamlit-f1-app.py:67 | Within a driver, rows follow the lap order: the rows for `laps1 + laps2` are those of `laps1` followed by those of `laps2`. |
| LapTable.DriverRowsSound | streamlit-f1-app.py:67-78 | Each row of a driver reports one of that driver's laps that has a lap time. |
| LapTable.DriverRowsComplete | streamlit-f1-app.py:67-78 | Each lap of the driver that has a lap time is reported by a row. |
| LapTable.DriverRowsCount | streamlit-f1-app.py:67-68 | A driver contributes exactly as many rows as it has laps with a lap time. |
| Stats.Mean | streamlit-f1-app.py:206 | The mean is absent exactly when there are no values. |
| Stats.MeanOfPresent | streamlit-f1-app.py:206 | The skip-null mean of a column is absent exactly when every cell is null; otherwise it is the sum of the non-null values divided by the number of non-null cells. |
| Stats.PresentEmpty | streamlit-f1-app.py:206 | A column has no non-null value exactly when every cell is null. |
| Stats.MeanBounds | streamlit-f1-app.py:206 | A mean lies between any lower and upper bound of the values averaged. |
| Stats.SumBounds | streamlit-f1-app.py:206 | If every value lies in `[lo, hi]`, the sum lies between `lo·n` and `hi·n`. |
| Stats.MeanIgnoresNulls | streamlit-f1-app.py:206 | Appending null cells to a column leaves its mean unchanged. |
| Stats.PresentMembers | streamlit-f1-app.py:206 | A value is averaged exactly when some cell holds it. |
| Stats.PresentLength | streamlit-f1-app.py:206 | One value is averaged per non-null cell. |
| Stats.PresentAppend | streamlit-f1-app.py:206 | The non-null values of two columns in a row are those of the first followed by those of the second. |
| SectorAverages.SectorTable | streamlit-f1-app.py:205-206 | The sector table has one row per driver abbreviation that occurs in the lap table, and no other. |
| SectorAverages.SectorCellIsMean | streamlit-f1-app.py:205-206 | For every driver in the table, each sector cell is the skip-null mean of the lap table's sector column with every other driver's cells masked out. |
| SectorAverages.SectorValuesClosedForm | streamlit-f1-app.py:205-206 | The values grouped under a driver for a sector are exactly the non-null cells of that sector column, in row order, once every other driver's cells are masked out. |
| SectorAverages.SectorColumnMembers | streamlit-f1-app.py:206 | A cell is in a driver's sector column exactly when some row of that driver holds it. |
| SectorAverages.SectorValuesMembers | streamlit-f1-app.py:206 | A value enters a driver's sector mean exactly when some row of that driver holds it in that sector. |
| SectorAverages.SectorValuesCount | streamlit-f1-app.py:206 | A driver's sector mean is over exactly as many values as the driver has rows with that sector present. |
| SectorAverages.SectorCellAbsent | streamlit-f1-app.py:75-77 | A cell is NaN exactly when none of the driver's rows has a value for that sector. |
| SectorAverages.SectorCellBounds | streamlit-f1-app.py:206 | A cell lies within any bounds of the driver's present values for that sector. |
| SectorAverages.SectorCellIgnoresAbsent | streamlit-f1-app.py:75-77 | A further row with no value in a sector leaves every existing driver's mean for that sector unchanged. So a missing sector never counts as 0. |
| Sorting.Insert | streamlit-f1-app.py:261 | Inserting into a sorted table keeps it sorted (nulls last) and adds exactly one row. |
| Sorting.SortBy | streamlit-f1-app.py:261 | `sort_values`: the result is a permutation of the rows, ascending by the key, with null keys last. |
| SessionStats.BuildFastestTable | streamlit-f1-app.py:248-261 | The result is `None` exactly when no selected driver has a fastest lap. Otherwise it is a permutation of the appended rows, sorted ascending by time. |
| SessionStats.FastestEntriesDrivers | streamlit-f1-app.py:249-252 | A driver has a fastest-lap row exactly when the driver is selected and `pick_fastest` returned a lap. |
| SessionStats.FastestEntriesFields | streamlit-f1-app.py:252-255 | Each row carries its driver's fastest-lap time and lap number. |
| SessionStats.FastestEntriesCount | streamlit-f1-app.py:249-257 | The table has exactly one row per selected position whose driver has a fastest lap. |
| SessionStats.FastestEntriesEmptyIff | streamlit-f1-app.py:259 | No row is appended exactly when no selected driver has a fastest lap. |
| SessionStats.BuildAverageTable | streamlit-f1-app.py:266-280 | The result is `None` exactly when every selected driver's lap list is empty. Otherwise it is a permutation of the appended rows, sorted ascending by average time (NaT last). |
| SessionStats.AverageEntriesDrivers | streamlit-f1-app.py:267-270 | A driver has a row exactly when the driver is selected and has a non-empty lap list. |
| SessionStats.AverageEntriesFields | streamlit-f1-app.py:270-275 | Each row's `Laps Completed` is the full length of the driver's lap list (positive). Its average is the skip-null mean of the driver's lap times. |
| SessionStats.AverageEntriesCount | streamlit-f1-app.py:267-275 | The table has exactly one row per selected position whose driver has a non-empty lap list. |
| SessionStats.AverageEntriesEmptyIff | streamlit-f1-app.py:277 | No row is appended exactly when every selected driver's lap list is empty. |
| SessionStats.AverageTimeMeaning | streamlit-f1-app.py:272 | The average is NaT exactly when no lap has a lap time. Otherwise it lies within the range of the lap times. |
| SessionStats.LapsCompletedCountsNullLaps | streamlit-f1-app.py:272-274 | A driver whose only lap has a null time gets a row with one lap completed and a NaT average, although no lap is timed. |
| TelemetryPlot.SelectLap | streamlit-f1-app.py:84-87 | A lap number that is present and non-zero picks the driver's laps with that number, and exactly those. Otherwise the fastest lap is used. |
| TelemetryPlot.PickLap | streamlit-f1-app.py:85 | The picked laps are exactly the driver's laps with the requested number, and there are never more of them than the driver has laps. |
| TelemetryPlot.GivenLapNumberAlwaysSelected | streamlit-f1-app.py:84-89 | With a given lap number the selection always passes the `lap is not None` test (line 89), and it is an empty lap frame when no lap has that number. |
| TelemetryPlot.TelemetryFigure | streamlit-f1-app.py:89-128 | A figure is produced exactly when a lap was selected. Its title names the driver and the resolved lap number. |
| TelemetryPlot.TelemetryFigureTraces | streamlit-f1-app.py:95-118 | Speed is always drawn first. Throttle and brake are drawn exactly when their columns exist. Every trace is plotted against the unchanged distance channel, and every channel but brake is copied unchanged. |
| TelemetryPlot.BrakePercent | streamlit-f1-app.py:115 | The brake trace has one value per sample, and dividing it by 100 gives back the raw value. |
| TelemetryPlot.BrakePercentRange | streamlit-f1-app.py:115 | Raw brake values in [0, 1] are drawn in [0, 100]. |
| TelemetryPlot.TelemetryFigureBrakeRange | streamlit-f1-app.py:112-118 | With raw brake values in [0, 1], every value of the drawn brake trace lies in [0, 100]. |
| Scenarios.TwoDriverLapRows | streamlit-f1-app.py:59-80 | Two drivers with one timed lap each give two rows. A lap record with no Compound field reads "Unknown". |
| Scenarios.TwoDriverSectorTable | streamlit-f1-app.py:205-206 | In the same example the sector means are A = (30.0, 30.0, 30.1) s and B = (NaN, 30.5, 30.5) s. |
| Scenarios.TwoDriverFastestTable | streamlit-f1-app.py:248-261 | In the same example every sorted permutation of the fastest-lap rows, so every table the builder may return, is A at 90.1 s, then B at 91.0 s. |

## Left out

- Streamlit wiring: page setup, CSS, sidebar widgets, tabs, expanders, and
  `st.session_state` (lines 11-40, and the widget code of `main` in lines
  130-246 apart from the sector mean at lines 205-206).
  It has no behaviour of its own.
- The caching decorators, session loading and the schedule lookup (lines 35-57).
  These are network/disk I/O behind fastf1; the session is an input.
- The internals of `pick_driver`, `get_driver` and `pick_fastest` are library
  code. Their results are fields of the `Session` input. Nothing is assumed about
  which lap `pick_fastest` picks (for example, that it has the minimum time), so
  "the fastest time is at most every other lap time" is not stated.
- `pick_lap` is modelled as "the driver's laps with that lap number". That is
  what it returns; its internals are library code.
- `get_telemetry` is a library call. The selected lap's telemetry is a parameter.
  So what happens when it is called on an empty lap frame (an explicit lap
  number no lap has, where fastf1 raises rather than returning telemetry) is not
  modelled: the model only shows that such a selection passes the `lap is not
  None` test.
- plotly figure construction: layout, colours, axis titles, hover mode, and the
  sector bar chart (lines 92-126, 193-223). A figure is modelled as its driver,
  lap number and list of named traces. The title string itself is not built.
- TelemetryPlot.TelemetryFigure: for an explicit lap number the title's lap
  number is the requested number. The source formats the LapNumber column of the
  picked frame.
- The standard-deviation column (line 273). It needs floating point and sqrt.
- The `SpeedI2` column of the fastest-laps table (line 256). It is an opaque
  provider field.
- Floating point. Durations are whole milliseconds rather than `total_seconds()`
  floats, and means are exact `real`s.
- SectorAverages.SectorTable: the table is a map keyed by abbreviation. The order
  of its rows (groupby sorts the keys) is not modelled, and neither is pandas'
  treatment of a sector column that is null in every row (an object column).
- BuildFastestTable and BuildAverageTable promise a sorted permutation, not one
  particular order of rows with equal times. `sort_values` uses an unstable sort
  by default, so that order is unspecified.
- fastf1's Brake channel is boolean. The model takes raw brake values as reals.
- Selected drivers must belong to the session (`AllKnown`). The driver picker
  only offers the session's drivers. `get_driver` of an unknown driver is not
  modelled.
