/**
  Normalisation of timetable entries whose hour field may run past 24 into
  instants relative to a service date (`process_time`).
 */
module ScheduleTime {
  import opened Tables

  /**
    The scheduled date-time of `t` on the service day `serviceDay`: the hour is
    split by `divmod(hours, 24)` into extra days and the hour of the day.
    Python's `divmod` floors; for the positive divisor 24 that is Dafny's
    Euclidean `/` and `%`.
   */
  function ProcessTime(t: ClockTime, serviceDay: int): (r: Timestamp)
    ensures Instant(r) == serviceDay * SecondsPerDay + t.hours * 3600 + t.minutes * 60 + t.seconds
    ensures r.secondOfDay == (t.hours % 24) * 3600 + t.minutes * 60 + t.seconds
  {
    var extraDays := t.hours / 24;
    var hour := t.hours % 24;
    HoursSplit(t.hours);
    Timestamp(serviceDay + extraDays, hour * 3600 + t.minutes * 60 + t.seconds)
  }

  /** Splitting the hour into days and hours keeps the number of seconds. */
  lemma HoursSplit(h: int)
    ensures (h / 24) * SecondsPerDay + (h % 24) * 3600 == h * 3600
  {
    assert h == (h / 24) * 24 + h % 24;
    calc {
      (h / 24) * SecondsPerDay + (h % 24) * 3600;
      ((h / 24) * 24 + h % 24) * 3600;
      h * 3600;
    }
  }

  /** An hour below 24 stays on the service day; each further 24 hours moves one day on. */
  lemma ProcessTimeDay(t: ClockTime, serviceDay: int)
    ensures 0 <= t.hours < 24 ==> ProcessTime(t, serviceDay).day == serviceDay
    ensures 24 <= t.hours < 48 ==> ProcessTime(t, serviceDay).day == serviceDay + 1
    ensures ProcessTime(t, serviceDay).day == serviceDay + t.hours / 24
  {
    var r := ProcessTime(t, serviceDay);
    var rest := (t.hours % 24) * 3600 + t.minutes * 60 + t.seconds;
    assert r.secondOfDay == rest;
    assert Instant(r) == (serviceDay + t.hours / 24) * SecondsPerDay + rest by {
      HoursSplit(t.hours);
    }
    assert r.day * SecondsPerDay == (serviceDay + t.hours / 24) * SecondsPerDay;
  }

  /** "25:10:00" is 01:10:00 on the next day. */
  lemma NextDayExample(serviceDay: int)
    ensures ProcessTime(Clock(25, 10, 0), serviceDay) == Timestamp(serviceDay + 1, 1 * 3600 + 10 * 60)
  {
    ProcessTimeDay(Clock(25, 10, 0), serviceDay);
  }

  /** "23:59:59" stays on the service day. */
  lemma SameDayExample(serviceDay: int)
    ensures ProcessTime(Clock(23, 59, 59), serviceDay) == Timestamp(serviceDay, 23 * 3600 + 59 * 60 + 59)
  {
    ProcessTimeDay(Clock(23, 59, 59), serviceDay);
  }

  /** Later timetable entries normalise to later instants. */
  lemma ProcessTimeMonotonic(a: ClockTime, b: ClockTime, serviceDay: int)
    requires a.hours * 3600 + a.minutes * 60 + a.seconds <= b.hours * 3600 + b.minutes * 60 + b.seconds
    ensures Instant(ProcessTime(a, serviceDay)) <= Instant(ProcessTime(b, serviceDay))
  {
  }
}
