# Bus punctuality analytics — a Dafny model

This project models the analytics half of the Warsaw bus-punctuality
pipeline. These are the pure batch transformations that run after the
position feed, the stop list, the route dictionary and the timetables have
been fetched:

- **Schedule-time normalisation** (`process_time`, module `ScheduleTime`). A
  timetable entry `HH:MM:SS`, whose hour may be 24 or more, becomes an
  instant relative to a service date.
- **Nearest-stop matching** (`find_nearest_stop`, module `NearestStop`).
  - Every position sample is compared with the stop rows of its own line.
  - The first closest stop, its distance and the 15 m "at stop" flag are
    recorded.
- **Speed derivation and violation filtering** (`analyze_bus_speed`, module
  `BusSpeed`).
  - The feed is sorted by (vehicle, time).
  - Consecutive samples of one vehicle are differenced into km/h.
  - The rows strictly between 50 and 100 km/h are kept.
- **Violation aggregation by stop** (the counting part of
  `analyze_speed_violation_by_location`, module `Violations`).
  - Too-fast rows are joined to the augmented feed on (vehicle, time).
  - Each stop's violations are counted.
  - The count is set against the number of distinct vehicles seen at that
    stop.
  - Stops at or above 20 % are flagged.
- **Lateness** (`find_punctuality`, module `Punctuality`).
  - Samples at a stop are looked up in the route table by (stop group, post,
    line).
  - An origin stop gets lateness 0.
  - Otherwise lateness is measured against the latest departure due by
    arrival + 2 minutes.
  - When no departure is due by then, the departure closest to the arrival
    is used.
- **Route flattening** (`flatten_data_routes`, module `RouteFlattening`).
  The nested mapping route → direction → bus_id → stop record becomes flat
  records tagged with their three keys.

Module `Tables` holds the shared records:
- the feed row `Sample`;
- the route-table row `RouteStop`;
- the augmented row `Augmented`;
- the timestamp and clock types.

It also holds two sequence helpers, the first-match lookup `FindFirst` and
the order-keeping `Filter` (with `FilterAppend` for order and `FilterCounts`
for multiplicity).

Conventions:
- Time is integer seconds. A parsed timestamp is a (day number, second of
  day) pair. `Instant` is its offset from midnight of day 0, so naive
  date-times compare and subtract like instants.
- A timetable entry is an (hours, minutes, seconds) triple with minutes and
  seconds below 60, because `datetime(...)` rejects anything else. The hour
  is unbounded.
- Python's `divmod(hours, 24)` floors. For the positive divisor 24 that is
  Dafny's `/` and `%`.
- Lateness, speeds, distances and percentages are `real`. A pandas NaN is
  `None` of `Option`.
- Geographic distance is an opaque parameter of type `Metric`: any function
  of two coordinates that is never negative. It is used twice:
  - in metres for nearest-stop matching (`haversine_distances` × 6371000);
  - in kilometres for speeds (`haversine`).
- The feed's `Time` column holds fixed-format `YYYY-MM-DD HH:MM:SS` strings.
  They sort and compare as their instants do, so sorting and joining use
  the parsed timestamp.
- Nearest-stop matching and lateness receive route tables built by the
  same merge of timetables with the stop list (`assets.py:224-230` and
  `:304-310`). The model therefore passes one `seq<RouteStop>` to both.
- `bus_id` is a `Cell`, which is text, an integer or NaN. This keeps the
  code's comparison `bus_id == 1` visible as `EqualsInt(cell, 1)`.
  `flatten_data_routes` takes `bus_id` from a JSON object key, so it is
  always text (lemma `RouteFlattening.FlattenedKeysAreText`).

## Model

Paths are relative to the repository root. `assets.py` is
`zadanie_zaliczeniowe/bus-analysis/build/lib/bus_analysis/assets.py`.

| member | source | states |
|---|---|---|
| ScheduleTime.ProcessTime | zadanie_zaliczeniowe/bus-analysis/build/lib/bus_analysis/assets.py:238-251 | the normalised instant is service-day midnight + HH·3600 + MM·60 + SS seconds, and its time of day is HH mod 24 hours plus MM and SS |
| ScheduleTime.ProcessTimeDay | zadanie_zaliczeniowe/bus-analysis/build/lib/bus_analysis/assets.py:241-250 | the date moves forward by HH div 24 days: hours 0–23 stay on the service day, hours 24–47 land on the next day |
| ScheduleTime.NextDayExample | zadanie_zaliczeniowe/bus-analysis/build/lib/bus_analysis/assets.py:238-251 | "25:10:00" is 01:10:00 on the day after the service day |
| ScheduleTime.SameDayExample | zadanie_zaliczeniowe/bus-analysis/build/lib/bus_analysis/assets.py:238-251 | "23:59:59" stays on the service day |
| ScheduleTime.ProcessTimeMonotonic | zadanie_zaliczeniowe/bus-analysis/build/lib/bus_analysis/assets.py:238-251 | a later timetable entry never normalises to an earlier instant |
| Tables.InstantInjective | zadanie_zaliczeniowe/bus-analysis/build/lib/bus_analysis/assets.py:282-292 | two timestamps compare as equal instants exactly when they are the same date-time |
| Tables.Position | zadanie_zaliczeniowe/bus-analysis/build/lib/bus_analysis/assets.py:184-188 | a sample has a position exactly when both its latitude and longitude are present |
| Tables.FindFirst | zadanie_zaliczeniowe/bus-analysis/build/lib/bus_analysis/assets.py:260-268 | the chosen index is the first row satisfying the mask; there is none exactly when no row satisfies it |
| Tables.TextNeverEqualsInt | zadanie_zaliczeniowe/bus-analysis/build/lib/bus_analysis/assets.py:269 | a text cell never equals an integer literal |
| NearestStop.LineStops | zadanie_zaliczeniowe/bus-analysis/build/lib/bus_analysis/assets.py:183-185 | a line's candidate stops are exactly the route-table rows whose route is that line |
| NearestStop.Located | zadanie_zaliczeniowe/bus-analysis/build/lib/bus_analysis/assets.py:197 | the located rows are exactly the group's rows with both coordinates, and there are no more of them than rows |
| NearestStop.LineStopsInOrder | zadanie_zaliczeniowe/bus-analysis/build/lib/bus_analysis/assets.py:183-185 | grouping keeps table order (a table split in two gives the two groups one after the other) and keeps every occurrence of a row of the line, none of another line |
| NearestStop.LocatedInOrder | zadanie_zaliczeniowe/bus-analysis/build/lib/bus_analysis/assets.py:197 | `dropna` keeps the located rows in group order, each as often as the group holds it, and drops every row missing a coordinate |
| NearestStop.LocatedGroupIsUsable | zadanie_zaliczeniowe/bus-analysis/build/lib/bus_analysis/assets.py:189-195 | a group with a row holding both coordinates passes the skip test; a group that passes it without such a row has a latitude-only row and a longitude-only row |
| NearestStop.ArgMin | zadanie_zaliczeniowe/bus-analysis/build/lib/bus_analysis/assets.py:202 | the index holds the least distance, and every earlier index holds a strictly larger one (ties go to the first) |
| NearestStop.MatchAsWritten | zadanie_zaliczeniowe/bus-analysis/build/lib/bus_analysis/assets.py:183-212 | no match exactly when the sample has no position or its line's group is empty or lacks one coordinate column entirely; a raising argmin exactly when no row of the line has both coordinates; otherwise the least distance over the line's located stops, with the stop read from the unfiltered group at the argmin index |
| NearestStop.MatchNearest | zadanie_zaliczeniowe/bus-analysis/build/lib/bus_analysis/assets.py:196-212 | the corrected matcher: the reported stop is the located stop of the line whose distance is the recorded least distance, first on ties |
| NearestStop.AsWrittenMatchesNearestWhenLocated | zadanie_zaliczeniowe/bus-analysis/build/lib/bus_analysis/assets.py:197-208 | when every stop row of the line has coordinates, the code's matcher and the corrected one agree |
| NearestStop.MisalignedExample | zadanie_zaliczeniowe/bus-analysis/build/lib/bus_analysis/assets.py:197-208 | on a line whose first row lacks coordinates, the code reports that row with the second row's distance |
| NearestStop.Augment | zadanie_zaliczeniowe/bus-analysis/build/lib/bus_analysis/assets.py:203-212 | a matched sample gets the matched row's `nr_zespolu` and `nr_przystanku` and the match distance, and is at a stop exactly when that distance is within 15 m; an unmatched sample keeps null fields and is not at a stop |
| NearestStop.AugmentReportsArgmin | zadanie_zaliczeniowe/bus-analysis/build/lib/bus_analysis/assets.py:197-212 | the written stop fields are those of the group row at the first index of least distance over the located stops, and the written distance is that least distance |
| NearestStop.FindNearestStop | zadanie_zaliczeniowe/bus-analysis/build/lib/bus_analysis/assets.py:171-213 | fails exactly when some sample's distance call raises; otherwise one row per sample in feed order; a sample is matched exactly when it has a position and its line passes the skip test; a matched row carries the stop fields of the group row at the first least-distance index and that least distance, which no located stop of the line undercuts; unmatched rows keep null fields; the 15 m flag |
| BusSpeed.StrLessTransitive | zadanie_zaliczeniowe/bus-analysis/build/lib/bus_analysis/assets.py:130 | Python's string order on vehicle numbers is transitive (with `StrLessIrreflexive` and `StrLessTotal`, a strict total order) |
| BusSpeed.KeyLessTotal | zadanie_zaliczeniowe/bus-analysis/build/lib/bus_analysis/assets.py:130 | rows the (vehicle, time) key leaves unordered share vehicle and instant |
| BusSpeed.SortByVehicleTime | zadanie_zaliczeniowe/bus-analysis/build/lib/bus_analysis/assets.py:130 | the result is ascending by (vehicle, time) and a permutation of the feed |
| BusSpeed.InsertKeepsSorted | zadanie_zaliczeniowe/bus-analysis/build/lib/bus_analysis/assets.py:130 | inserting a row into a sorted table keeps it sorted |
| BusSpeed.PairSpeed | zadanie_zaliczeniowe/bus-analysis/build/lib/bus_analysis/assets.py:137-152 | elapsed time ≤ 0 gives speed 0; otherwise the speed is defined exactly when both positions are, and is a non-negative v with v · elapsed hours = distance |
| BusSpeed.Speeds | zadanie_zaliczeniowe/bus-analysis/build/lib/bus_analysis/assets.py:131-155 | one speed per row; defined only when the previous row is the same vehicle, and then the pair speed of those two rows |
| BusSpeed.SortedSpeeds | zadanie_zaliczeniowe/bus-analysis/build/lib/bus_analysis/assets.py:130-155 | on sorted rows a speed is undefined exactly for a vehicle's first row and for rows after elapsed time with a missing coordinate; defined speeds are non-negative |
| BusSpeed.TooFast | zadanie_zaliczeniowe/bus-analysis/build/lib/bus_analysis/assets.py:156-158 | the kept rows are exactly the rows with a defined speed strictly between 50 and 100, with that speed |
| BusSpeed.TooFastAppend | zadanie_zaliczeniowe/bus-analysis/build/lib/bus_analysis/assets.py:156-158 | the boolean mask works row by row: two tables one after the other give their kept rows one after the other, so table order is kept |
| BusSpeed.TooFastCount | zadanie_zaliczeniowe/bus-analysis/build/lib/bus_analysis/assets.py:156-158 | exactly one row is kept per row whose speed is in the band |
| BusSpeed.TooFastSorted | zadanie_zaliczeniowe/bus-analysis/build/lib/bus_analysis/assets.py:130-158 | keeping rows of a table sorted by (vehicle, time) leaves them sorted |
| BusSpeed.AnalyzeBusSpeed | zadanie_zaliczeniowe/bus-analysis/build/lib/bus_analysis/assets.py:128-168 | every returned row is a feed sample with a speed strictly inside (50, 100), and there are no more rows than samples |
| BusSpeed.AnalyzeBusSpeedExact | zadanie_zaliczeniowe/bus-analysis/build/lib/bus_analysis/assets.py:130-158 | the returned rows are exactly the rows of the sorted feed whose speed is in the band, each with that speed, one per such row, in ascending (vehicle, time) order |
| BusSpeed.ViolationNotFirst | zadanie_zaliczeniowe/bus-analysis/build/lib/bus_analysis/assets.py:132-154 | a row whose speed is in the band follows a row of the same vehicle, so a vehicle's first row is never returned |
| Violations.PartnerStops | zadanie_zaliczeniowe/bus-analysis/build/lib/bus_analysis/assets.py:76-81 | the stops merged onto a too-fast row are exactly the `nearest_stop` values of augmented rows with its (vehicle, time) key |
| Violations.PartnerStopsCount | zadanie_zaliczeniowe/bus-analysis/build/lib/bus_analysis/assets.py:76-81 | the merge gives a too-fast row one entry per augmented row sharing its key, and each stop as often as those rows carry it |
| Violations.PartnerStopsAppend | zadanie_zaliczeniowe/bus-analysis/build/lib/bus_analysis/assets.py:76-81 | partner lookup works row by row over the augmented feed, keeping its order |
| Violations.Join | zadanie_zaliczeniowe/bus-analysis/build/lib/bus_analysis/assets.py:76-81 | the left merge yields at least one row per too-fast row, and every merged stop is some augmented row's stop |
| Violations.JoinKeepsRows | zadanie_zaliczeniowe/bus-analysis/build/lib/bus_analysis/assets.py:76-81 | every stop of every partner of every too-fast row appears in the merged column, and a too-fast row without partner appears as NaN |
| Violations.JoinAppend | zadanie_zaliczeniowe/bus-analysis/build/lib/bus_analysis/assets.py:76-81 | the merge works row by row over the too-fast rows, keeping their order |
| Violations.JoinCount | zadanie_zaliczeniowe/bus-analysis/build/lib/bus_analysis/assets.py:76-82 | a stop appears in the merged column once per pair of a too-fast row and an augmented row that share the (vehicle, time) key and are matched to that stop |
| Violations.SummaryCountsPairs | zadanie_zaliczeniowe/bus-analysis/build/lib/bus_analysis/assets.py:76-96 | a matched stop's violation count is the number of such pairs |
| Violations.MatchedStops | zadanie_zaliczeniowe/bus-analysis/build/lib/bus_analysis/assets.py:83-85 | the stops of the summary are exactly the stops some augmented row is matched to (NaN dropped by `groupby`) |
| Violations.Vehicles | zadanie_zaliczeniowe/bus-analysis/build/lib/bus_analysis/assets.py:83-85 | the vehicles measured at a stop are exactly the vehicles of augmented rows matched to it |
| Violations.JoinedStopsMatched | zadanie_zaliczeniowe/bus-analysis/build/lib/bus_analysis/assets.py:76-85 | every stop in the merged column is a matched stop |
| Violations.MatchedStopMeasured | zadanie_zaliczeniowe/bus-analysis/build/lib/bus_analysis/assets.py:83-85 | a matched stop has at least one distinct vehicle, so the percentage never divides by zero |
| Violations.Percentage | zadanie_zaliczeniowe/bus-analysis/build/lib/bus_analysis/assets.py:92-96 | the percentage p satisfies p · measurements = 100 · violations, and p ≥ 20 exactly when 5 · violations ≥ measurements |
| Violations.Summarize | zadanie_zaliczeniowe/bus-analysis/build/lib/bus_analysis/assets.py:82-96 | one entry per matched stop; its violations are the merged rows at that stop (0 when none), its measurements the distinct vehicles matched there (at least 1), its percentage 100 · violations / measurements |
| Violations.SignificantStops | zadanie_zaliczeniowe/bus-analysis/build/lib/bus_analysis/assets.py:97-99 | exactly the entries whose percentage reaches 20, unchanged |
| Violations.SignificantIffFifth | zadanie_zaliczeniowe/bus-analysis/build/lib/bus_analysis/assets.py:92-99 | a stop is flagged exactly when it was matched and five times its violations reach its measurements |
| Violations.ViolationsCountRows | zadanie_zaliczeniowe/bus-analysis/build/lib/bus_analysis/assets.py:76-82 | with one augmented row per (vehicle, time), a stop's violation count is the number of too-fast rows joined to it |
| Violations.PercentageExceedsHundred | zadanie_zaliczeniowe/bus-analysis/build/lib/bus_analysis/assets.py:82-96 | two too-fast rows of one vehicle at one stop give 2 violations over 1 measurement: 200 % |
| Punctuality.Minutes | zadanie_zaliczeniowe/bus-analysis/build/lib/bus_analysis/assets.py:292 | the minutes are the seconds divided by 60, so a lateness is at least −2 exactly when the arrival is at most 120 s before the reference |
| Punctuality.Timetable | zadanie_zaliczeniowe/bus-analysis/build/lib/bus_analysis/assets.py:260-268 | the row used is the first with the sample's stop group, post and line; there is none exactly when no row matches |
| Punctuality.IsFirstStop | zadanie_zaliczeniowe/bus-analysis/build/lib/bus_analysis/assets.py:269 | the origin-stop test holds exactly when the cell is the integer 1 |
| Punctuality.TextKeyIsNeverFirstStop | zadanie_zaliczeniowe/bus-analysis/build/lib/bus_analysis/assets.py:269 | a text `bus_id` never passes the origin-stop test |
| Punctuality.ScheduledInstants | zadanie_zaliczeniowe/bus-analysis/build/lib/bus_analysis/assets.py:276-278 | one normalised instant per timetable entry, in timetable order |
| Punctuality.ScheduledInstantValues | zadanie_zaliczeniowe/bus-analysis/build/lib/bus_analysis/assets.py:276-278 | the i-th scheduled instant is service-day midnight plus the i-th entry's hours, minutes and seconds |
| Punctuality.MaxOf | zadanie_zaliczeniowe/bus-analysis/build/lib/bus_analysis/assets.py:285 | the maximum is an element and bounds every element |
| Punctuality.ClosestIndex | zadanie_zaliczeniowe/bus-analysis/build/lib/bus_analysis/assets.py:287-290 | the chosen departure has the least absolute difference to the arrival, the first on ties |
| Punctuality.Reference | zadanie_zaliczeniowe/bus-analysis/build/lib/bus_analysis/assets.py:279-291 | when some departure is due by arrival + 120 s, the reference is the latest such; otherwise it lies beyond that and is closest to the arrival |
| Punctuality.Lateness | zadanie_zaliczeniowe/bus-analysis/build/lib/bus_analysis/assets.py:257-293 | a lateness is defined exactly for an at-stop sample with a timetable row that is an origin stop or has departures; an origin stop gives 0 |
| Punctuality.LatenessWithinGrace | zadanie_zaliczeniowe/bus-analysis/build/lib/bus_analysis/assets.py:279-292 | with a departure due by arrival + 2 min, lateness is taken against the latest such departure and is ≥ −2 |
| Punctuality.LatenessBeforeSchedule | zadanie_zaliczeniowe/bus-analysis/build/lib/bus_analysis/assets.py:284-292 | with every departure after arrival + 2 min, lateness is taken against the closest departure and is < −2 |
| Punctuality.FindPunctuality | zadanie_zaliczeniowe/bus-analysis/build/lib/bus_analysis/assets.py:254-295 | one lateness per augmented row, defined only for at-stop rows that found a timetable row |
| Punctuality.MatchedRowFindsTimetable | zadanie_zaliczeniowe/bus-analysis/build/lib/bus_analysis/assets.py:260-266 | a row whose stop fields come from a route-table row of its own line finds a matching timetable row |
| Punctuality.AtStopFindsTimetable | zadanie_zaliczeniowe/bus-analysis/build/lib/bus_analysis/assets.py:258-266 | every row the matcher put at a stop finds a timetable row in the same route table |
| RouteFlattening.Tag | zadanie_zaliczeniowe/bus-analysis/bus_analysis/resources.py:18-20 | the record gains `route`, `direction` and `bus_id` set to its keys, overriding earlier values; every other field is unchanged |
| RouteFlattening.FlattenBuses | zadanie_zaliczeniowe/bus-analysis/bus_analysis/resources.py:17-21 | one tagged record per bus entry, in iteration order |
| RouteFlattening.FlattenRoutes | zadanie_zaliczeniowe/bus-analysis/bus_analysis/resources.py:12-22 | `flatten_data_routes`: the number of records is the number of (route, direction, bus_id) key paths |
| RouteFlattening.FlattenDirections | zadanie_zaliczeniowe/bus-analysis/bus_analysis/resources.py:16-21 | the records under one route number its (direction, bus_id) key paths |
| RouteFlattening.FlattenDirectionsAppend | zadanie_zaliczeniowe/bus-analysis/bus_analysis/resources.py:16-21 | within a route the records come out direction by direction: two direction lists give their records one after the other |
| RouteFlattening.FlattenDirectionsMembers | zadanie_zaliczeniowe/bus-analysis/bus_analysis/resources.py:16-21 | a route's records are exactly the tagged records of its (direction, bus_id) paths |
| RouteFlattening.FlattenMembers | zadanie_zaliczeniowe/bus-analysis/bus_analysis/resources.py:14-22 | a record is emitted exactly when it is the tagged record of some key path |
| RouteFlattening.FlattenedKeysAreText | zadanie_zaliczeniowe/bus-analysis/bus_analysis/resources.py:17-20 | every emitted record carries its keys as text, so its `bus_id` never equals the integer 1 |
| RouteFlattening.FlattenAppend | zadanie_zaliczeniowe/bus-analysis/bus_analysis/resources.py:15-22 | records come out route by route: flattening two route lists gives their records one after the other |
| RouteFlattening.EmptyRouteContributesNothing | zadanie_zaliczeniowe/bus-analysis/bus_analysis/resources.py:14-22 | a route with no directions, or with no buses, adds no records |

## Divergences kept from the code

The model follows the code where it departs from what its comments suggest:

- **Stop misalignment** (`assets.py:197-208`).
  - The argmin index is computed over the stops that keep both coordinates.
  - The stop group and post are then read from the unfiltered group at that
    same index.
  - `NearestStop.MatchAsWritten` models this. `NearestStop.MatchNearest` is
    the intended reading.
  - The two agree when every stop row of the line has coordinates.
  - `NearestStop.MisalignedExample` shows a line where they differ.
- **No located stop** (`assets.py:189-200`). A line's group can pass the
  skip test with no row holding both coordinates: some row has a latitude,
  another a longitude. Then `dropna` leaves no stop coordinates, and
  `haversine_distances` raises on the empty array (its input check demands
  at least one sample) before `argmin` is reached. The run fails; the
  model returns `None` for the whole table (match case
  `NearestStop.NoLocatedStop`).
- **Origin-stop test** (`assets.py:269`). `bus_id` is a JSON object key, so
  it is text, and `bus_id == 1` is never true. The zero-lateness rule
  therefore never fires on route-table rows built by `flatten_data_routes`.
- **Zero elapsed time** (`assets.py:148`). A same-vehicle pair whose elapsed
  time is not positive gets speed 0, not an undefined speed.
- **Missing coordinates in a speed pair.** `haversine` of a NaN coordinate
  returns NaN without raising, so the speed is undefined when time has
  passed. When no time has passed the speed is still 0.
- **Percentage above 100** (`assets.py:82-96`). Violations count rows while
  measurements count distinct vehicles, so the percentage is not capped.

## Left out

- HTTP client, polling, retry/sleep and `drop_duplicates` of the fetch
  resource: these are network I/O, so the feed is taken as given.
- The `fetch_*` assets, Dagster decorators, output metadata, the folium map
  (`assets.py:100-115`), the CSV write (`assets.py:294`), and configuration
  files: orchestration and I/O side effects.
- Great-circle distance (`haversine`, `haversine_distances` × 6371000): its
  floating-point trigonometry is out of scope. It is the opaque
  non-negative `Metric` parameter, so the model says nothing about NaN or
  the domain of `asin`.
- Floating-point rounding: all arithmetic on speeds, distances, lateness
  and percentages is exact `real` arithmetic.
- The average speed over 3 < speed < 100 and the average lateness: these
  are statistics, not logic.
- Parsing of date-time strings and of `HH:MM:SS`: samples carry a parsed
  (day, second of day) timestamp, and timetable entries an
  (hours, minutes, seconds) triple.
- `datetime`'s year range (years 1–9999): the model's day numbers are
  unbounded, so an overflow error is not modelled.
- `pd.to_numeric(..., errors="coerce")`: a non-numeric coordinate is taken
  as already missing (`None`).
- The merge of timetables with the stop list that builds the route table
  (`assets.py:224-230`), and the average stop coordinates merged onto
  significant stops (`assets.py:65-75`, `:100-102`): route-table rows come
  already joined with their stop coordinates, and the summary ends at the
  flagged stops.
- BusSpeed.SortByVehicleTime: the contract states sortedness and
  permutation only. The order among rows with equal (vehicle, time) keys
  is not stated.
- Violations.ViolationsCountRows: states the row count only for a feed with
  one row per (vehicle, time) key. `Violations.JoinCount` states the general
  count, as the number of matched index pairs.
- RouteFlattening.FlattenRoutes: the mapping is a sequence in iteration
  order. Distinct keys per level are not required, and the in-place update
  of the caller's dictionaries (including aliasing between entries) is not
  modelled.
- The older revision `bus_analysis/assets.py` is not part of this model.
  It does not run as written; `build/lib/bus_analysis/assets.py` is the
  working revision.
