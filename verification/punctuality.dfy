/**
  Lateness against the timetable (`find_punctuality`): every sample at a stop
  is looked up in the route table by (stop group, post, line), and its
  lateness in minutes is taken against the most recently due departure, with
  a two-minute grace window and a closest-departure fallback.
 */
module Punctuality {
  import opened Tables
  import opened ScheduleTime
  import NearestStop

  /** A departure up to this many seconds after the arrival still counts as already due. */
  const GraceSeconds: int := 120

  function Abs(x: int): nat
  {
    if x < 0 then -x else x
  }

  /** Minutes of a signed number of seconds (`total_seconds() / 60`). */
  function Minutes(seconds: int): (m: real)
    ensures m * 60.0 == seconds as real
    ensures m >= -2.0 <==> seconds >= -GraceSeconds
  {
    seconds as real / 60.0
  }

  /** The lookup key: same stop group, same post, same line; a missing stop equals nothing. */
  predicate RowMatches(row: RouteStop, a: Augmented)
  {
    a.nearestStop == Some(row.stopGroup) && a.nearestPost == Some(row.stopPost) && row.route == a.sample.line
  }

  /** The first route-table row under the sample's key. */
  function Timetable(a: Augmented, rows: seq<RouteStop>): (r: Option<RouteStop>)
    ensures r.None? <==> forall i :: 0 <= i < |rows| ==> !RowMatches(rows[i], a)
    ensures r.Some? ==> exists k :: (0 <= k < |rows| && rows[k] == r.value && RowMatches(rows[k], a)
      && forall j :: 0 <= j < k ==> !RowMatches(rows[j], a))
  {
    match FindFirst(rows, (row: RouteStop) => RowMatches(row, a))
    case None => None
    case Some(k) => Some(rows[k])
  }

  /**
    The origin-stop test `bus_id == 1` as the code writes it: a comparison
    with the integer 1, which a text key never passes.
   */
  predicate IsFirstStop(row: RouteStop): (b: bool)
    ensures b <==> row.busId == Int(1)
  {
    EqualsInt(row.busId, 1)
  }

  /** The route table's `bus_id` is a JSON object key, so the origin-stop rule cannot fire on it. */
  lemma TextKeyIsNeverFirstStop(row: RouteStop)
    requires row.busId.Text?
    ensures !IsFirstStop(row)
  {
  }

  /** Timetable entries normalised against the service day `day`, in timetable order. */
  function ScheduledInstants(times: seq<ClockTime>, day: int): (ts: seq<int>)
    ensures |ts| == |times|
  {
    if |times| == 0 then []
    else [Instant(ProcessTime(times[0], day))] + ScheduledInstants(times[1..], day)
  }

  /** Each scheduled instant is service-day midnight plus the entry's hours, minutes and seconds. */
  lemma {:induction false} ScheduledInstantValues(times: seq<ClockTime>, day: int)
    ensures forall i :: 0 <= i < |times| ==>
      ScheduledInstants(times, day)[i] == day * SecondsPerDay + times[i].hours * 3600 + times[i].minutes * 60 + times[i].seconds
  {
    if |times| > 0 {
      ScheduledInstantValues(times[1..], day);
      var ts := ScheduledInstants(times, day);
      forall i | 0 <= i < |times|
        ensures ts[i] == day * SecondsPerDay + times[i].hours * 3600 + times[i].minutes * 60 + times[i].seconds
      {
        if i > 0 {
          assert ts[i] == ScheduledInstants(times[1..], day)[i - 1];
          assert times[i] == times[1..][i - 1];
        }
      }
    }
  }

  /** Python's `max`. */
  function MaxOf(s: seq<int>): (m: int)
    requires |s| > 0
    ensures m in s
    ensures forall i :: 0 <= i < |s| ==> s[i] <= m
  {
    if |s| == 1 then s[0]
    else
      var rest := MaxOf(s[1..]);
      if s[0] >= rest then s[0] else rest
  }

  /** Python's `min(s, key=lambda t: abs(t - actual))`: the first element closest to `actual`. */
  function ClosestIndex(s: seq<int>, actual: int): (k: nat)
    requires |s| > 0
    ensures k < |s|
    ensures forall i :: 0 <= i < |s| ==> Abs(s[k] - actual) <= Abs(s[i] - actual)
    ensures forall i :: 0 <= i < k ==> Abs(s[k] - actual) < Abs(s[i] - actual)
  {
    if |s| == 1 then 0
    else
      var k := ClosestIndex(s[..|s| - 1], actual);
      if Abs(s[|s| - 1] - actual) < Abs(s[k] - actual) then |s| - 1 else k
  }

  /**
    The reference departure: the latest one due by the end of the grace
    window, or, when none is, the one closest to the arrival.
   */
  function Reference(instants: seq<int>, actual: int): (ref: int)
    requires |instants| > 0
    ensures ref in instants
    ensures (exists i :: 0 <= i < |instants| && instants[i] <= actual + GraceSeconds) ==>
      && ref <= actual + GraceSeconds
      && forall i :: 0 <= i < |instants| && instants[i] <= actual + GraceSeconds ==> instants[i] <= ref
    ensures (forall i :: 0 <= i < |instants| ==> instants[i] > actual + GraceSeconds) ==>
      && ref > actual + GraceSeconds
      && forall i :: 0 <= i < |instants| ==> Abs(ref - actual) <= Abs(instants[i] - actual)
  {
    var cutoff := actual + GraceSeconds;
    var preceding := Filter(instants, (t: int) => t <= cutoff);
    if |preceding| > 0 then MaxOf(preceding)
    else instants[ClosestIndex(instants, actual)]
  }

  /**
    The lateness of one augmented sample, in minutes: undefined unless the
    sample is at a stop with a timetable row; zero at an origin stop;
    undefined for an empty departure list; otherwise measured against the
    reference departure.
   */
  function Lateness(a: Augmented, rows: seq<RouteStop>): (r: Option<real>)
    ensures r.Some? <==>
      && a.atStop
      && Timetable(a, rows).Some?
      && (IsFirstStop(Timetable(a, rows).value) || |Timetable(a, rows).value.times| > 0)
    ensures a.atStop && Timetable(a, rows).Some? && IsFirstStop(Timetable(a, rows).value) ==> r == Some(0.0)
  {
    if !a.atStop then None
    else match Timetable(a, rows)
      case None => None
      case Some(row) =>
        if IsFirstStop(row) then Some(0.0)
        else if |row.times| == 0 then None
        else
          var actual := Instant(a.sample.time);
          Some(Minutes(actual - Reference(ScheduledInstants(row.times, a.sample.time.day), actual)))
  }

  /** Away from an origin stop with a non-empty departure list, the lateness is taken against the reference departure. */
  lemma LatenessAgainstReference(a: Augmented, rows: seq<RouteStop>, row: RouteStop)
    requires a.atStop && Timetable(a, rows) == Some(row) && !IsFirstStop(row) && |row.times| > 0
    ensures Lateness(a, rows) ==
      Some(Minutes(Instant(a.sample.time) - Reference(ScheduledInstants(row.times, a.sample.time.day), Instant(a.sample.time))))
  {
  }

  /** Departure `i` is due by the end of the grace window and no other due departure is later. */
  predicate LatestDue(ts: seq<int>, actual: int, i: int)
  {
    && 0 <= i < |ts|
    && ts[i] <= actual + GraceSeconds
    && forall j :: 0 <= j < |ts| && ts[j] <= actual + GraceSeconds ==> ts[j] <= ts[i]
  }

  /** Departure `i` is at least as close to the arrival as every other departure. */
  predicate Closest(ts: seq<int>, actual: int, i: int)
  {
    && 0 <= i < |ts|
    && forall j :: 0 <= j < |ts| ==> Abs(ts[i] - actual) <= Abs(ts[j] - actual)
  }

  /** With some departure due by the end of the grace window, the reference is the latest such one. */
  lemma GraceReference(ts: seq<int>, actual: int) returns (i: nat)
    requires exists i :: 0 <= i < |ts| && ts[i] <= actual + GraceSeconds
    ensures LatestDue(ts, actual, i) && ts[i] == Reference(ts, actual)
  {
    var ref := Reference(ts, actual);
    i :| 0 <= i < |ts| && ts[i] == ref;
  }

  /** With no departure due by the end of the grace window, the reference is the closest one and lies beyond the window. */
  lemma FallbackReference(ts: seq<int>, actual: int) returns (i: nat)
    requires |ts| > 0
    requires forall j :: 0 <= j < |ts| ==> ts[j] > actual + GraceSeconds
    ensures Closest(ts, actual, i) && ts[i] == Reference(ts, actual) && ts[i] > actual + GraceSeconds
  {
    var ref := Reference(ts, actual);
    i :| 0 <= i < |ts| && ts[i] == ref;
  }

  /**
    With some departure due by arrival plus two minutes, the lateness is
    measured against the latest such departure and is at least -2 minutes.
   */
  lemma LatenessWithinGrace(a: Augmented, rows: seq<RouteStop>, row: RouteStop)
    requires a.atStop && Timetable(a, rows) == Some(row) && !IsFirstStop(row)
    requires exists i :: (0 <= i < |row.times| &&
      ScheduledInstants(row.times, a.sample.time.day)[i] <= Instant(a.sample.time) + GraceSeconds)
    ensures
      var ts := ScheduledInstants(row.times, a.sample.time.day);
      var actual := Instant(a.sample.time);
      exists i :: LatestDue(ts, actual, i) && Lateness(a, rows) == Some(Minutes(actual - ts[i]))
    ensures Lateness(a, rows).Some? && Lateness(a, rows).value >= -2.0
  {
    var ts := ScheduledInstants(row.times, a.sample.time.day);
    var actual := Instant(a.sample.time);
    var i := LatenessDue(a, rows, row);
    assert LatestDue(ts, actual, i) && Lateness(a, rows) == Some(Minutes(actual - ts[i]));
  }

  /** The witness for `LatenessWithinGrace`: the latest due departure, against which lateness is taken. */
  lemma LatenessDue(a: Augmented, rows: seq<RouteStop>, row: RouteStop) returns (i: nat)
    requires a.atStop && Timetable(a, rows) == Some(row) && !IsFirstStop(row)
    requires exists i :: (0 <= i < |row.times| &&
      ScheduledInstants(row.times, a.sample.time.day)[i] <= Instant(a.sample.time) + GraceSeconds)
    ensures LatestDue(ScheduledInstants(row.times, a.sample.time.day), Instant(a.sample.time), i)
    ensures Lateness(a, rows) == Some(Minutes(Instant(a.sample.time) - ScheduledInstants(row.times, a.sample.time.day)[i]))
  {
    var ts := ScheduledInstants(row.times, a.sample.time.day);
    var actual := Instant(a.sample.time);
    LatenessAgainstReference(a, rows, row);
    i := GraceReference(ts, actual);
  }

  /**
    With every departure later than arrival plus two minutes, the lateness
    is measured against the departure closest to the arrival and is below
    -2 minutes.
   */
  lemma LatenessBeforeSchedule(a: Augmented, rows: seq<RouteStop>, row: RouteStop)
    requires a.atStop && Timetable(a, rows) == Some(row) && !IsFirstStop(row) && |row.times| > 0
    requires forall i :: 0 <= i < |row.times| ==>
      ScheduledInstants(row.times, a.sample.time.day)[i] > Instant(a.sample.time) + GraceSeconds
    ensures
      var ts := ScheduledInstants(row.times, a.sample.time.day);
      var actual := Instant(a.sample.time);
      exists i :: Closest(ts, actual, i) && Lateness(a, rows) == Some(Minutes(actual - ts[i]))
    ensures Lateness(a, rows).Some? && Lateness(a, rows).value < -2.0
  {
    var ts := ScheduledInstants(row.times, a.sample.time.day);
    var actual := Instant(a.sample.time);
    var i := LatenessClosest(a, rows, row);
    assert Closest(ts, actual, i) && Lateness(a, rows) == Some(Minutes(actual - ts[i]));
  }

  /** The witness for `LatenessBeforeSchedule`: the closest departure, beyond the grace window. */
  lemma LatenessClosest(a: Augmented, rows: seq<RouteStop>, row: RouteStop) returns (i: nat)
    requires a.atStop && Timetable(a, rows) == Some(row) && !IsFirstStop(row) && |row.times| > 0
    requires forall i :: 0 <= i < |row.times| ==>
      ScheduledInstants(row.times, a.sample.time.day)[i] > Instant(a.sample.time) + GraceSeconds
    ensures Closest(ScheduledInstants(row.times, a.sample.time.day), Instant(a.sample.time), i)
    ensures ScheduledInstants(row.times, a.sample.time.day)[i] > Instant(a.sample.time) + GraceSeconds
    ensures Lateness(a, rows) == Some(Minutes(Instant(a.sample.time) - ScheduledInstants(row.times, a.sample.time.day)[i]))
  {
    var ts := ScheduledInstants(row.times, a.sample.time.day);
    var actual := Instant(a.sample.time);
    assert forall j :: 0 <= j < |ts| ==> ts[j] > actual + GraceSeconds;
    LatenessAgainstReference(a, rows, row);
    i := FallbackReference(ts, actual);
  }

  /** `find_punctuality` over the augmented table: one lateness per row, defined only at stops. */
  function FindPunctuality(rows: seq<RouteStop>, augmented: seq<Augmented>): (r: seq<Option<real>>)
    ensures |r| == |augmented|
    ensures forall i :: 0 <= i < |r| && r[i].Some? ==> augmented[i].atStop && Timetable(augmented[i], rows).Some?
    ensures forall i :: 0 <= i < |r| ==> r[i] == Lateness(augmented[i], rows)
  {
    seq(|augmented|, i requires 0 <= i < |augmented| => Lateness(augmented[i], rows))
  }

  /**
    A row whose stop fields were copied from a route-table row of its own
    line finds a timetable row in that table. `NearestStop.FindNearestStop`
    guarantees this for every row it puts at a stop, since an at-stop row
    has a distance, hence stop fields, hence such a source row.
   */
  lemma MatchedRowFindsTimetable(a: Augmented, rows: seq<RouteStop>)
    requires NearestStop.StopFieldsFromLine(a, rows)
    ensures Timetable(a, rows).Some?
    ensures RowMatches(Timetable(a, rows).value, a)
  {
    var row :| row in rows && row.route == a.sample.line
      && a.nearestStop == Some(row.stopGroup) && a.nearestPost == Some(row.stopPost);
    var k :| 0 <= k < |rows| && rows[k] == row;
    assert RowMatches(rows[k], a);
  }

  /** Every at-stop row of the nearest-stop table finds its timetable row. */
  lemma AtStopFindsTimetable(aug: seq<Augmented>, samples: seq<Sample>, rows: seq<RouteStop>, metres: Metric)
    requires NearestStop.FindNearestStop(samples, rows, metres) == Some(aug)
    ensures forall i :: 0 <= i < |aug| && aug[i].atStop ==> Timetable(aug[i], rows).Some?
  {
    forall i | 0 <= i < |aug| && aug[i].atStop
      ensures Timetable(aug[i], rows).Some?
    {
      MatchedRowFindsTimetable(aug[i], rows);
    }
  }
}
