/**
  Speed derivation and the violation filter (`analyze_bus_speed`): the feed
  is sorted by (vehicle, time), consecutive samples of one vehicle are
  differenced into a speed in km/h, and the rows strictly between 50 and
  100 km/h are returned.
 */
module BusSpeed {
  import opened Tables

  /** Python's `<` on strings: code point by code point, a proper prefix first. */
  predicate StrLess(a: string, b: string)
    decreases |a|
  {
    if |a| == 0 then |b| > 0
    else if |b| == 0 then false
    else if a[0] != b[0] then a[0] < b[0]
    else StrLess(a[1..], b[1..])
  }

  lemma {:induction false} StrLessIrreflexive(a: string)
    ensures !StrLess(a, a)
    decreases |a|
  {
    if |a| > 0 {
      StrLessIrreflexive(a[1..]);
    }
  }

  lemma {:induction false} StrLessTransitive(a: string, b: string, c: string)
    requires StrLess(a, b) && StrLess(b, c)
    ensures StrLess(a, c)
    decreases |a|
  {
    if |a| > 0 && a[0] == b[0] && b[0] == c[0] {
      StrLessTransitive(a[1..], b[1..], c[1..]);
    }
  }

  /** Distinct strings are always ordered one way or the other. */
  lemma {:induction false} StrLessTotal(a: string, b: string)
    ensures a == b || StrLess(a, b) || StrLess(b, a)
    decreases |a|
  {
    if |a| > 0 && |b| > 0 && a[0] == b[0] {
      StrLessTotal(a[1..], b[1..]);
      if a[1..] == b[1..] {
        assert a == [a[0]] + a[1..] && b == [b[0]] + b[1..];
      }
    }
  }

  /** The sort key of `sort_values(by=["VehicleNumber", "Time"])`: vehicle first, then time. */
  predicate KeyLess(x: Sample, y: Sample)
  {
    StrLess(x.vehicle, y.vehicle) || (x.vehicle == y.vehicle && Instant(x.time) < Instant(y.time))
  }

  lemma KeyLessTransitive(x: Sample, y: Sample, z: Sample)
    requires KeyLess(x, y) && KeyLess(y, z)
    ensures KeyLess(x, z)
  {
    if StrLess(x.vehicle, y.vehicle) && StrLess(y.vehicle, z.vehicle) {
      StrLessTransitive(x.vehicle, y.vehicle, z.vehicle);
    }
  }

  lemma KeyLessIrreflexive(x: Sample)
    ensures !KeyLess(x, x)
  {
    StrLessIrreflexive(x.vehicle);
  }

  /** Samples that do not come before one another share vehicle and instant. */
  lemma KeyLessTotal(x: Sample, y: Sample)
    requires !KeyLess(x, y) && !KeyLess(y, x)
    ensures x.vehicle == y.vehicle && Instant(x.time) == Instant(y.time)
  {
    StrLessTotal(x.vehicle, y.vehicle);
  }

  /** Ascending by (vehicle, time). */
  predicate Sorted(s: seq<Sample>)
  {
    forall i, j :: 0 <= i < j < |s| ==> !KeyLess(s[j], s[i])
  }

  /** Inserts `x` after every element whose key is not greater, so equal keys keep their order. */
  function Insert(x: Sample, s: seq<Sample>): (r: seq<Sample>)
    ensures multiset(r) == multiset(s) + multiset{x}
    ensures |r| == |s| + 1
  {
    if |s| == 0 then [x]
    else if KeyLess(x, s[0]) then [x] + s
    else
      assert s == [s[0]] + s[1..];
      [s[0]] + Insert(x, s[1..])
  }

  /** A head no greater than any element of a sorted tail keeps the table sorted. */
  lemma ConsSorted(h: Sample, t: seq<Sample>)
    requires Sorted(t)
    requires forall j :: 0 <= j < |t| ==> !KeyLess(t[j], h)
    ensures Sorted([h] + t)
  {
    var r := [h] + t;
    forall i, j | 0 <= i < j < |r|
      ensures !KeyLess(r[j], r[i])
    {
      assert r[j] == t[j - 1];
      if i > 0 {
        assert r[i] == t[i - 1];
      }
    }
  }

  lemma {:induction false} InsertKeepsSorted(x: Sample, s: seq<Sample>)
    requires Sorted(s)
    ensures Sorted(Insert(x, s))
  {
    if |s| == 0 {
    } else if KeyLess(x, s[0]) {
      forall j | 0 <= j < |s|
        ensures !KeyLess(s[j], x)
      {
        if KeyLess(s[j], x) {
          KeyLessTransitive(s[j], x, s[0]);
          KeyLessIrreflexive(s[0]);
          assert false;
        }
      }
      ConsSorted(x, s);
    } else {
      InsertKeepsSorted(x, s[1..]);
      var t := Insert(x, s[1..]);
      forall j | 0 <= j < |t|
        ensures !KeyLess(t[j], s[0])
      {
        assert t[j] in multiset(t);
        assert t[j] in multiset(s[1..]) || t[j] == x;
        if t[j] != x {
          var k :| 0 <= k < |s[1..]| && s[1..][k] == t[j];
          assert s[k + 1] == t[j];
        }
      }
      ConsSorted(s[0], t);
    }
  }

  /** The feed sorted by (vehicle, time); a stable insertion sort. */
  function SortByVehicleTime(s: seq<Sample>): (r: seq<Sample>)
    ensures Sorted(r)
    ensures multiset(r) == multiset(s)
    ensures |r| == |s|
  {
    if |s| == 0 then []
    else
      var init := SortByVehicleTime(s[..|s| - 1]);
      assert s == s[..|s| - 1] + [s[|s| - 1]];
      InsertKeepsSorted(s[|s| - 1], init);
      Insert(s[|s| - 1], init)
  }

  /** Elapsed seconds are turned into hours with this divisor. */
  const SecondsPerHour: real := 3600.0

  /** Hours from `prev` to `cur`, negative when `cur` is earlier. */
  function ElapsedHours(prev: Sample, cur: Sample): real
  {
    (Instant(cur.time) - Instant(prev.time)) as real / SecondsPerHour
  }

  /**
    The speed of `cur` after `prev` of the same vehicle: distance over
    elapsed hours when time has passed, and 0 when it has not. A missing
    coordinate makes the distance NaN, so the speed is undefined.
   */
  function PairSpeed(prev: Sample, cur: Sample, km: Metric): (v: Option<real>)
    ensures Instant(cur.time) <= Instant(prev.time) ==> v == Some(0.0)
    ensures Instant(prev.time) < Instant(cur.time) ==>
      (v.Some? <==> Position(prev).Some? && Position(cur).Some?)
    ensures Instant(prev.time) < Instant(cur.time) && v.Some? ==>
      0.0 <= v.value && v.value * ElapsedHours(prev, cur) == km(Position(prev).value, Position(cur).value)
  {
    var hours := ElapsedHours(prev, cur);
    if hours > 0.0 then
      match (Position(prev), Position(cur))
      case (Some(p), Some(q)) => Some(km(p, q) / hours)
      case _ => None
    else Some(0.0)
  }

  /** One speed per row: undefined for row 0 and wherever the row before belongs to another vehicle. */
  function Speeds(rows: seq<Sample>, km: Metric): (speeds: seq<Option<real>>)
    ensures |speeds| == |rows|
    ensures forall i :: 0 <= i < |rows| && speeds[i].Some? ==> 0 < i && rows[i - 1].vehicle == rows[i].vehicle
    ensures forall i :: 0 < i < |rows| && rows[i - 1].vehicle == rows[i].vehicle ==>
      speeds[i] == PairSpeed(rows[i - 1], rows[i], km)
  {
    seq(|rows|, i requires 0 <= i < |rows| =>
      if 0 < i && rows[i - 1].vehicle == rows[i].vehicle then PairSpeed(rows[i - 1], rows[i], km) else None)
  }

  /** Row `i` is the earliest row of its vehicle. */
  predicate FirstOfVehicle(rows: seq<Sample>, i: int)
    requires 0 <= i < |rows|
  {
    forall j :: 0 <= j < i ==> rows[j].vehicle != rows[i].vehicle
  }

  /** In a sorted table the rows of one vehicle are contiguous. */
  lemma SortedVehiclesContiguous(rows: seq<Sample>, j: int, i: int)
    requires Sorted(rows)
    requires 0 <= j < i < |rows| && rows[j].vehicle == rows[i].vehicle
    ensures rows[i - 1].vehicle == rows[i].vehicle
  {
    var v := rows[i].vehicle;
    var w := rows[i - 1].vehicle;
    assert !KeyLess(rows[i - 1], rows[j]);
    assert !KeyLess(rows[i], rows[i - 1]);
    StrLessTotal(v, w);
  }

  /**
    On sorted rows the speed is undefined exactly for each vehicle's first
    row and for rows after elapsed time whose coordinates are missing; a
    defined speed is never negative.
   */
  lemma SortedSpeeds(rows: seq<Sample>, km: Metric)
    requires Sorted(rows)
    ensures forall i :: 0 <= i < |rows| ==>
      (Speeds(rows, km)[i].None? <==>
        FirstOfVehicle(rows, i)
        || (Instant(rows[i - 1].time) < Instant(rows[i].time)
            && (Position(rows[i - 1]).None? || Position(rows[i]).None?)))
    ensures forall i :: 0 <= i < |rows| && Speeds(rows, km)[i].Some? ==> 0.0 <= Speeds(rows, km)[i].value
  {
    var sp := Speeds(rows, km);
    forall i | 0 <= i < |rows|
      ensures sp[i].None? <==>
        FirstOfVehicle(rows, i)
        || (Instant(rows[i - 1].time) < Instant(rows[i].time)
            && (Position(rows[i - 1]).None? || Position(rows[i]).None?))
      ensures sp[i].Some? ==> 0.0 <= sp[i].value
    {
      if !FirstOfVehicle(rows, i) {
        var j :| 0 <= j < i && rows[j].vehicle == rows[i].vehicle;
        SortedVehiclesContiguous(rows, j, i);
        assert !KeyLess(rows[i], rows[i - 1]);
      }
    }
  }

  /** A returned row: the sample and the speed it was flagged with. */
  datatype SpeedRow = SpeedRow(sample: Sample, speed: real)

  const ViolationMin: real := 50.0
  /** Speeds at or above this are sensor artefacts, not violations. */
  const ViolationMax: real := 100.0

  predicate IsViolation(v: Option<real>)
  {
    v.Some? && ViolationMin < v.value < ViolationMax
  }

  /** `x` is the row at some index whose speed is in the band, with that speed. */
  predicate FlaggedAt(rows: seq<Sample>, speeds: seq<Option<real>>, x: SpeedRow)
    requires |rows| == |speeds|
  {
    exists i :: 0 <= i < |rows| && IsViolation(speeds[i]) && x == SpeedRow(rows[i], speeds[i].value)
  }

  /** The rows whose speed lies strictly between 50 and 100 km/h, in table order. */
  function TooFast(rows: seq<Sample>, speeds: seq<Option<real>>): (r: seq<SpeedRow>)
    requires |rows| == |speeds|
    ensures |r| <= |rows|
    ensures forall k :: 0 <= k < |r| ==> ViolationMin < r[k].speed < ViolationMax
    ensures forall k :: 0 <= k < |r| ==> FlaggedAt(rows, speeds, r[k])
    ensures forall i :: 0 <= i < |rows| && IsViolation(speeds[i]) ==> SpeedRow(rows[i], speeds[i].value) in r
  {
    if |rows| == 0 then []
    else
      var rest := TooFast(rows[1..], speeds[1..]);
      var head := if IsViolation(speeds[0]) then [SpeedRow(rows[0], speeds[0].value)] else [];
      assert forall k :: 0 <= k < |rest| ==> FlaggedAt(rows, speeds, rest[k]) by {
        forall k | 0 <= k < |rest|
          ensures FlaggedAt(rows, speeds, rest[k])
        {
          FlaggedInTail(rows, speeds, rest[k]);
        }
      }
      TailCovers(rows, speeds, rows[1..], speeds[1..], rest);
      head + rest
  }

  /** Selection works row by row: two tables one after the other give their selections one after the other. */
  lemma {:induction false} TooFastAppend(a: seq<Sample>, sa: seq<Option<real>>, b: seq<Sample>, sb: seq<Option<real>>)
    requires |a| == |sa| && |b| == |sb|
    ensures TooFast(a + b, sa + sb) == TooFast(a, sa) + TooFast(b, sb)
  {
    if |a| > 0 {
      assert (a + b)[1..] == a[1..] + b && (sa + sb)[1..] == sa[1..] + sb;
      assert (a + b)[0] == a[0] && (sa + sb)[0] == sa[0];
      TooFastAppend(a[1..], sa[1..], b, sb);
    } else {
      assert a + b == b && sa + sb == sb;
    }
  }

  /** The indices of the first `n` rows whose speed lies in the band. */
  function ViolationIndices(speeds: seq<Option<real>>, n: nat): set<int>
    requires n <= |speeds|
  {
    set i | 0 <= i < n && IsViolation(speeds[i])
  }

  /** Exactly one row is returned per row whose speed lies in the band. */
  lemma TooFastCount(rows: seq<Sample>, speeds: seq<Option<real>>)
    requires |rows| == |speeds|
    ensures |TooFast(rows, speeds)| == |set i | 0 <= i < |rows| && IsViolation(speeds[i])|
  {
    TooFastPrefixCount(rows, speeds, |rows|);
    assert rows[..|rows|] == rows && speeds[..|rows|] == speeds;
  }

  lemma {:induction false} TooFastPrefixCount(rows: seq<Sample>, speeds: seq<Option<real>>, n: nat)
    requires |rows| == |speeds| && n <= |rows|
    ensures |TooFast(rows[..n], speeds[..n])| == |ViolationIndices(speeds, n)|
  {
    if n == 0 {
      assert ViolationIndices(speeds, 0) == {};
    } else {
      var m := n - 1;
      TooFastPrefixCount(rows, speeds, m);
      assert rows[..n] == rows[..m] + [rows[m]] && speeds[..n] == speeds[..m] + [speeds[m]];
      TooFastAppend(rows[..m], speeds[..m], [rows[m]], [speeds[m]]);
      TooFastOne(rows[m], speeds[m]);
      ViolationIndicesStep(speeds, m);
    }
  }

  lemma TooFastOne(x: Sample, v: Option<real>)
    ensures |TooFast([x], [v])| == if IsViolation(v) then 1 else 0
  {
    assert [x][1..] == [] && [v][1..] == [];
  }

  lemma ViolationIndicesStep(speeds: seq<Option<real>>, m: nat)
    requires m < |speeds|
    ensures |ViolationIndices(speeds, m + 1)| == |ViolationIndices(speeds, m)| + if IsViolation(speeds[m]) then 1 else 0
  {
    if IsViolation(speeds[m]) {
      assert ViolationIndices(speeds, m + 1) == ViolationIndices(speeds, m) + {m};
      assert m !in ViolationIndices(speeds, m);
    } else {
      assert ViolationIndices(speeds, m + 1) == ViolationIndices(speeds, m);
    }
  }

  /** Returned rows in ascending (vehicle, time) order of their samples. */
  predicate RowsSorted(r: seq<SpeedRow>)
  {
    forall k, l :: 0 <= k < l < |r| ==> !KeyLess(r[l].sample, r[k].sample)
  }

  /** Selecting from rows sorted by (vehicle, time) keeps them sorted. */
  lemma {:induction false} TooFastSorted(rows: seq<Sample>, speeds: seq<Option<real>>)
    requires |rows| == |speeds| && Sorted(rows)
    ensures RowsSorted(TooFast(rows, speeds))
  {
    if |rows| > 0 {
      var rest := TooFast(rows[1..], speeds[1..]);
      SortedTail(rows);
      TooFastSorted(rows[1..], speeds[1..]);
      if IsViolation(speeds[0]) {
        forall k | 0 <= k < |rest|
          ensures !KeyLess(rest[k].sample, rows[0])
        {
          TailRowAfterHead(rows, speeds, rest[k]);
        }
        ConsRowsSorted(SpeedRow(rows[0], speeds[0].value), rest);
      }
    }
  }

  lemma SortedTail(rows: seq<Sample>)
    requires |rows| > 0 && Sorted(rows)
    ensures Sorted(rows[1..])
  {
    forall i, j | 0 <= i < j < |rows[1..]|
      ensures !KeyLess(rows[1..][j], rows[1..][i])
    {
      assert rows[1..][j] == rows[j + 1] && rows[1..][i] == rows[i + 1];
    }
  }

  /** A row flagged in the tail of a sorted table does not sort before the first row. */
  lemma TailRowAfterHead(rows: seq<Sample>, speeds: seq<Option<real>>, x: SpeedRow)
    requires 0 < |rows| == |speeds| && Sorted(rows) && FlaggedAt(rows[1..], speeds[1..], x)
    ensures !KeyLess(x.sample, rows[0])
  {
    var i :| 0 <= i < |rows[1..]| && IsViolation(speeds[1..][i]) && x == SpeedRow(rows[1..][i], speeds[1..][i].value);
    assert rows[1..][i] == rows[i + 1];
  }

  lemma ConsRowsSorted(x: SpeedRow, rest: seq<SpeedRow>)
    requires RowsSorted(rest)
    requires forall k :: 0 <= k < |rest| ==> !KeyLess(rest[k].sample, x.sample)
    ensures RowsSorted([x] + rest)
  {
    var r := [x] + rest;
    forall k, l | 0 <= k < l < |r|
      ensures !KeyLess(r[l].sample, r[k].sample)
    {
      assert r[l] == rest[l - 1];
      if k > 0 {
        assert r[k] == rest[k - 1];
      }
    }
  }

  /** The too-fast rows of a reordering of `samples` carry samples of `samples`. */
  lemma TooFastSamples(sorted: seq<Sample>, speeds: seq<Option<real>>, samples: seq<Sample>)
    requires |sorted| == |speeds| && multiset(sorted) == multiset(samples)
    ensures forall k :: 0 <= k < |TooFast(sorted, speeds)| ==> TooFast(sorted, speeds)[k].sample in samples
  {
    var rows := TooFast(sorted, speeds);
    forall k | 0 <= k < |rows|
      ensures rows[k].sample in samples
    {
      var i :| 0 <= i < |sorted| && IsViolation(speeds[i]) && rows[k] == SpeedRow(sorted[i], speeds[i].value);
      assert sorted[i] in multiset(sorted);
    }
  }

  /** A row flagged in the tail of the table is flagged in the table. */
  lemma FlaggedInTail(rows: seq<Sample>, speeds: seq<Option<real>>, x: SpeedRow)
    requires 0 < |rows| == |speeds| && FlaggedAt(rows[1..], speeds[1..], x)
    ensures FlaggedAt(rows, speeds, x)
  {
    var i :| 0 <= i < |rows[1..]| && IsViolation(speeds[1..][i]) && x == SpeedRow(rows[1..][i], speeds[1..][i].value);
    assert rows[1..][i] == rows[i + 1] && speeds[1..][i] == speeds[i + 1];
  }

  /** A selection covering every violating row of the tail `rs` covers every violating row after the first. */
  lemma TailCovers(rows: seq<Sample>, speeds: seq<Option<real>>, rs: seq<Sample>, ss: seq<Option<real>>, rest: seq<SpeedRow>)
    requires 0 < |rows| == |speeds| && rs == rows[1..] && ss == speeds[1..]
    requires forall i :: 0 <= i < |rs| && IsViolation(ss[i]) ==> SpeedRow(rs[i], ss[i].value) in rest
    ensures forall i :: 1 <= i < |rows| && IsViolation(speeds[i]) ==> SpeedRow(rows[i], speeds[i].value) in rest
  {
    forall i | 1 <= i < |rows| && IsViolation(speeds[i])
      ensures SpeedRow(rows[i], speeds[i].value) in rest
    {
      assert rs[i - 1] == rows[i] && ss[i - 1] == speeds[i];
    }
  }

  /**
    `analyze_bus_speed`: the too-fast rows of the sorted feed. Every returned
    row is a feed sample with a speed strictly inside the violation band.
   */
  function AnalyzeBusSpeed(samples: seq<Sample>, km: Metric): (r: seq<SpeedRow>)
    ensures |r| <= |samples|
    ensures forall k :: 0 <= k < |r| ==> r[k].sample in samples && ViolationMin < r[k].speed < ViolationMax
  {
    var sorted := SortByVehicleTime(samples);
    var rows := TooFast(sorted, Speeds(sorted, km));
    TooFastSamples(sorted, Speeds(sorted, km), samples);
    rows
  }

  /**
    The returned rows are exactly the rows of the sorted feed whose speed,
    taken against the row before, lies in the band, each with that speed.
   */
  lemma AnalyzeBusSpeedExact(samples: seq<Sample>, km: Metric)
    ensures
      var sorted := SortByVehicleTime(samples);
      var sp := Speeds(sorted, km);
      var r := AnalyzeBusSpeed(samples, km);
      && (forall i :: 0 <= i < |sorted| && IsViolation(sp[i]) ==> SpeedRow(sorted[i], sp[i].value) in r)
      && (forall k :: 0 <= k < |r| ==> FlaggedAt(sorted, sp, r[k]))
      && |r| == |set i | 0 <= i < |sorted| && IsViolation(sp[i])|
      && RowsSorted(r)
  {
    var sorted := SortByVehicleTime(samples);
    assert AnalyzeBusSpeed(samples, km) == TooFast(sorted, Speeds(sorted, km));
    TooFastCount(sorted, Speeds(sorted, km));
    TooFastSorted(sorted, Speeds(sorted, km));
  }

  /** A row with a speed in the band has a predecessor of the same vehicle, so a vehicle's first row is never returned. */
  lemma ViolationNotFirst(rows: seq<Sample>, km: Metric, i: int)
    requires 0 <= i < |rows| && IsViolation(Speeds(rows, km)[i])
    ensures !FirstOfVehicle(rows, i)
  {
    assert rows[i - 1].vehicle == rows[i].vehicle;
  }
}
