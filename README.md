# Dirt-road status engine

A Dafny model of the decision logic of a weather dashboard that tells whether
a dirt road is passable. The logic takes the daily weather aggregates of one
location. Each record holds a day, the daily rain in mm and the mean relative
humidity in %. Three independent functions work on these records:

- `road_status_per_day` is the classifier. It copies the table and walks the
  rows once, in the order they are given. A two-variable state machine
  (`is_muddy`, `days_since_rain`) labels every day `Dry` or `Mud`. Rain above
  5 mm makes the day muddy. Mud then lasts for the next day whatever the
  humidity. After that it lasts while humidity stays above 90 %, and it clears
  on the first day that meets neither condition.
- `is_road_dry` is the instant check. It sorts the records by day and takes the
  last two, or fewer when there are fewer records. The road is dry iff each of
  those records has rain <= 5 mm and humidity <= 90 %.
- `estimate_next_dry_day` is the estimator. It returns the day of the first
  record, in row order, that is dated today or later and meets the same
  threshold. It does not use the classifier's grace period.

Files:

- `records.dfy`: the `Day` record, the two thresholds and `Option`.
- `road_status.dfy`: the classifier. `Next` is one step of the state machine
  and `Run`/`Labels` fold it over the rows. `RoadStatusPerDay` is the
  imperative method; it is proved to write exactly the labels of the fold. The
  lemmas tie the fold to the documented rule (`MudByRule`) and state its
  consequences.
- `road_dry.dfy`: the instant check. It contains a stable insertion sort by
  day, the `LatestTwo` window and a characterisation that does not mention
  sorting: "each record with fewer than two records dated after it looks dry".
- `next_dry_day.dfy`: the estimator, as a loop with an early return.

Behaviour of the code worth knowing:

- The classifier does not sort. It reads `df.loc[i]` for `i in range(len(df))`, so
  the model labels rows in the order given.
- `is_road_dry` on no records returns true, because `.all()` over an empty
  window holds.
- Duplicate days are not rejected by any of the three functions.
- "Days since rain" counts rows, not calendar days. Missing days do not count
  toward the grace period: the row after a heavy-rain row is still Mud however
  many days are missing between them.

## Model

| member | source | states |
|---|---|---|
| `RoadStatus.RoadStatusPerDay` | src/utils.py:37-62 | the returned table is a newly allocated array with one row per input row, in order, holding the record, its `heavy_rain` and `high_humidity` flags and the label of the left-to-right fold; the input is not changed |
| `RoadStatus.Labels` | src/utils.py:47-60 | the fold yields exactly one label per row |
| `RoadStatus.LastHeavy` | src/utils.py:48-50 | finds the most recent heavy-rain row: it has rain > 5 mm, no later row does, and it is absent iff no row does |
| `RoadStatus.RunInvariant` | src/utils.py:44-60 | while `is_muddy` holds, `days_since_rain` equals the number of rows since the last heavy-rain row, so the starting value 99 is never read; the state is muddy iff the documented rule holds |
| `RoadStatus.RunTracksLastHeavy` | src/utils.py:44-60 | the same invariant, stated through the most recent heavy-rain row and the humidity of every row from two rows after it |
| `RoadStatus.MudByRuleViaLastHeavy` | src/utils.py:27-36 | the documented rule (a heavy-rain row with none after it and only humid rows from two rows after it) holds iff it holds at the most recent heavy-rain row |
| `RoadStatus.LabelsAt` | src/utils.py:47-60 | the label of row i is Mud iff the state after rows 0..i is muddy |
| `RoadStatus.LabelsPrefix` | src/utils.py:47-60 | the first n labels of a table are the labels of its first n rows |
| `RoadStatus.AppendKeepsLabels` | src/utils.py:47-60 | appending rows never changes the labels of the earlier rows |
| `RoadStatus.LabelsFollowRule` | src/utils.py:27-36 | row i is labelled Mud iff, in rows 0..i, some row had rain > 5 mm, no later row did, and every row from two rows after it had humidity > 90 % |
| `RoadStatus.HeavyRainIsMud` | src/utils.py:48-51 | a day with rain > 5 mm is Mud whatever the state or humidity |
| `RoadStatus.DayAfterHeavyRainIsMud` | src/utils.py:52-55 | the day after a heavy-rain day is Mud even if it is dry and not humid |
| `RoadStatus.HumidityKeepsMud` | src/utils.py:52-55 | after a Mud day, a day with humidity > 90 % is Mud |
| `RoadStatus.MudClearsExactly` | src/utils.py:52-58 | after a Mud day, a day without heavy rain turns Dry iff at least two rows have passed since the last heavy rain and its humidity is <= 90 % |
| `RoadStatus.DryStaysDry` | src/utils.py:48-60 | after a Dry day, every day is Dry until the next day with rain > 5 mm |
| `RoadStatus.NoHeavyRainAllDry` | src/utils.py:44-60 | rows with no heavy rain are all labelled Dry |
| `RoadStatus.Examples` | src/utils.py:27-36 | a dry day then a day of 8 mm gives Dry, Mud; 8 mm under 95 % humidity, two humid days, then a 50 % day gives Mud, Mud, Mud, Dry |
| `RoadStatus.GapDoesNotCount` | src/utils.py:48-55 | the grace period counts rows: a heavy-rain day and a dry, not humid day five days later are both Mud |
| `RoadDry.InsertPermutes` | src/utils.py:19 | inserting a record into a list adds exactly that record |
| `RoadDry.InsertSorted` | src/utils.py:19 | inserting a record into a list sorted by day keeps it sorted |
| `RoadDry.SortByDayCorrect` | src/utils.py:19 | `sort_values("date_day")` gives a list sorted by day that is a permutation of the input |
| `RoadDry.LatestTwoIsLatest` | src/utils.py:19 | `tail(2)` of the sorted list holds min(2, n) of the input records, and no record left out is dated after a record kept |
| `RoadDry.IsRoadDry` | src/utils.py:19-22 | dry iff every record of the window has rain <= 5 mm and humidity <= 90 %; true on no records; on one record, that record decides |
| `RoadDry.LaterSort` | src/utils.py:19 | sorting does not change how many records are dated after a given day |
| `RoadDry.WindowIsLatest` | src/utils.py:19 | every record of the window has fewer than two records dated after it |
| `RoadDry.RecentIsInWindow` | src/utils.py:19 | a record with at most two records dated on or after it, itself included, is in the window |
| `RoadDry.DryMeansRecentLookDry` | src/utils.py:19-22 | for distinct days: when the check says dry, each record with fewer than two records dated after it has rain <= 5 mm and humidity <= 90 % |
| `RoadDry.RecentLookDryMeansDry` | src/utils.py:19-22 | when each record with fewer than two records dated after it has rain <= 5 mm and humidity <= 90 %, the check says dry |
| `RoadDry.IsRoadDryIff` | src/utils.py:19-22 | for distinct days: dry iff every record with fewer than two records dated after it has rain <= 5 mm and humidity <= 90 %, so one failing record among the last two makes the road not dry |
| `RoadDry.Example` | src/utils.py:20-22 | a single record with 3 mm of rain and 91 % humidity is not dry |
| `NextDryDay.EstimateNextDryDay` | src/utils.py:140-159 | returns None iff no row is dated today or later with rain <= 5 mm and humidity <= 90 %; otherwise returns the day of the first such row in row order, which is never earlier than today |
| `NextDryDay.Example` | src/utils.py:145-157 | with today = day 2, rows of days 0-2 that are wet and a dry day 3 give day 3 |

## Left out

- `get_road_surface` (src/utils.py:166-179): an HTTP request to a map service and parsing of its JSON reply. Gating on an "unpaved" surface is caller policy in app.py and is not part of these functions.
- `plot_road_status_calendar_multi` (src/utils.py:66-136), src/plotting.py and the Streamlit page in app.py: rendering only, with no decision logic.
- src/weather_data.py: the weather service client, its caching and retry, the float aggregation into daily means and sums, and the random test-data generators. The model starts from daily records.
- The wall clock read by `estimate_next_dry_day` (src/utils.py:145) is the parameter `today`.
- Dates are day numbers. The conversion of `date_day` to timestamps (src/utils.py:38, 149-152) is not modelled.
- Measurements are exact reals. Float rounding and NaN comparisons are not modelled; the code only compares measurements with 5 and 90.
- `RoadStatusPerDay` takes the rows positionally. This matches `df.loc[i]` only for the default 0..n-1 row index, which is what the weather client produces.
- `SortByDay` keeps records of equal day in input order. The sort in the source does not guarantee any order for equal dates.
- `RoadDry.IsRoadDryIff` is stated only for records with distinct days. With repeated days, which of the tied records fall into the window depends on the tie order above.
