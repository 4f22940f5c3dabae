/**
  Records shared by the stages of the bus-punctuality analytics: the rows of
  the position feed, of the route/timetable table and of the augmented
  position table, together with the small value types they are built from.
 */
module Tables {

  /** A value that may be missing; `None` stands for pandas' NaN/None. */
  datatype Option<+T> = None | Some(value: T)

  /**
    A cell of a pandas object column whose Python type matters to the code:
    a JSON key arrives as text, a literal in the code is an integer, and a
    missing entry is NaN.
   */
  datatype Cell = Text(text: string) | Int(number: int) | Nan

  /** Python's `cell == n` for an integer literal `n`: text never equals an integer, NaN equals nothing. */
  predicate EqualsInt(c: Cell, n: int)
  {
    match c
    case Int(i) => i == n
    case Text(_) => false
    case Nan => false
  }

  lemma TextNeverEqualsInt(s: string, n: int)
    ensures !EqualsInt(Text(s), n)
  {
  }

  const SecondsPerDay: int := 86400

  type SecondOfDay = s: int | 0 <= s < 86400

  /** A naive date-time: a calendar day number and the second within that day. */
  datatype Timestamp = Timestamp(day: int, secondOfDay: SecondOfDay)

  /** Seconds elapsed since midnight of day 0; naive date-times subtract like these. */
  function Instant(t: Timestamp): int
  {
    t.day * SecondsPerDay + t.secondOfDay
  }

  /** Two timestamps are the same instant exactly when they are equal. */
  lemma InstantInjective(a: Timestamp, b: Timestamp)
    ensures Instant(a) == Instant(b) <==> a == b
  {
    if Instant(a) == Instant(b) && a.day != b.day {
      assert false;
    }
  }

  /** A timetable entry "HH:MM:SS"; the hour may be 24 or more, the minute and second are in range. */
  datatype Clock = Clock(hours: int, minutes: int, seconds: int)

  type ClockTime = c: Clock | 0 <= c.minutes < 60 && 0 <= c.seconds < 60 witness Clock(0, 0, 0)

  datatype Coord = Coord(lat: real, lon: real)

  /** A great-circle distance, taken as an opaque non-negative function of two positions. */
  type Metric = d: (Coord, Coord) -> real | forall p: Coord, q: Coord :: 0.0 <= d(p, q)
    witness (p: Coord, q: Coord) => 0.0

  /** One row of the position feed: VehicleNumber, Lines, Lat, Lon, Time. */
  datatype Sample = Sample(vehicle: string, line: string, lat: Option<real>, lon: Option<real>, time: Timestamp)

  /** The sample's position, present only when both coordinates are. */
  function Position(s: Sample): (p: Option<Coord>)
    ensures p.Some? <==> s.lat.Some? && s.lon.Some?
  {
    if s.lat.Some? && s.lon.Some? then Some(Coord(s.lat.value, s.lon.value)) else None
  }

  /**
    One row of the route table: a stop post (`nr_zespolu`, `nr_przystanku`) on
    a route, its sequence key `bus_id`, its scheduled times and the stop's
    coordinates (missing when the stop list lacks them).
   */
  datatype RouteStop = RouteStop(
    stopGroup: string,
    stopPost: string,
    route: string,
    busId: Cell,
    times: seq<ClockTime>,
    lat: Option<real>,
    lon: Option<real>)

  /** A position sample with the columns the nearest-stop stage adds. */
  datatype Augmented = Augmented(
    sample: Sample,
    nearestStop: Option<string>,
    nearestPost: Option<string>,
    distance: Option<real>,
    atStop: bool)

  /** The index of the first element satisfying `p`, as pandas' `.loc[mask].iloc[0]` picks it. */
  function FindFirst<T>(s: seq<T>, p: T -> bool): (r: Option<nat>)
    ensures r.Some? ==> r.value < |s| && p(s[r.value])
    ensures r.Some? ==> forall j :: 0 <= j < r.value ==> !p(s[j])
    ensures r.None? <==> forall j :: 0 <= j < |s| ==> !p(s[j])
  {
    if |s| == 0 then None
    else if p(s[0]) then Some(0)
    else match FindFirst(s[1..], p)
      case None => None
      case Some(k) => Some(k + 1)
  }

  /** The elements of `s` satisfying `p`, in their order in `s` (a pandas boolean mask). */
  function Filter<T(!new)>(s: seq<T>, p: T -> bool): (r: seq<T>)
    ensures |r| <= |s|
    ensures forall i :: 0 <= i < |r| ==> r[i] in s && p(r[i])
    ensures forall i :: 0 <= i < |s| && p(s[i]) ==> s[i] in r
  {
    if |s| == 0 then []
    else if p(s[0]) then [s[0]] + Filter(s[1..], p)
    else Filter(s[1..], p)
  }

  /** The mask keeps every occurrence of a satisfying row and drops every other row. */
  lemma {:induction false} FilterCounts<T(!new)>(s: seq<T>, p: T -> bool)
    ensures forall x :: multiset(Filter(s, p))[x] == if p(x) then multiset(s)[x] else 0
  {
    if |s| > 0 {
      FilterCounts(s[1..], p);
      assert s == [s[0]] + s[1..];
    }
  }

  /** The mask works row by row: filtering two tables one after the other keeps their order. */
  lemma {:induction false} FilterAppend<T(!new)>(a: seq<T>, b: seq<T>, p: T -> bool)
    ensures Filter(a + b, p) == Filter(a, p) + Filter(b, p)
  {
    if |a| == 0 {
      assert a + b == b;
    } else {
      assert (a + b)[0] == a[0] && (a + b)[1..] == a[1..] + b;
      FilterAppend(a[1..], b, p);
    }
  }

  /** A mask that keeps every row keeps the table as it is. */
  lemma {:induction false} FilterKeepsAll<T(!new)>(s: seq<T>, p: T -> bool)
    requires forall i :: 0 <= i < |s| ==> p(s[i])
    ensures Filter(s, p) == s
  {
    if |s| > 0 {
      FilterKeepsAll(s[1..], p);
    }
  }
}
