/**
  Violation aggregation by stop (`analyze_speed_violation_by_location`,
  counting part): too-fast rows are joined to the augmented feed, counted per
  nearest stop, set against the number of distinct vehicles seen at that
  stop, and stops at or above 20 % are flagged.
 */
module Violations {
  import opened Tables
  import BusSpeed

  /** A stop is significant from this percentage on. */
  const SignificantPercentage: real := 20.0

  /** The merge key `["VehicleNumber", "Time"]`. */
  predicate SameKey(t: BusSpeed.SpeedRow, a: Augmented)
  {
    t.sample.vehicle == a.sample.vehicle && t.sample.time == a.sample.time
  }

  /** `o` is the `nearest_stop` of some augmented row sharing `t`'s key. */
  predicate PartnerOf(t: BusSpeed.SpeedRow, augmented: seq<Augmented>, o: Option<string>)
  {
    exists i :: 0 <= i < |augmented| && SameKey(t, augmented[i]) && o == augmented[i].nearestStop
  }

  /** The `nearest_stop` values of the augmented rows sharing `t`'s key, in table order. */
  function PartnerStops(t: BusSpeed.SpeedRow, augmented: seq<Augmented>): (r: seq<Option<string>>)
    ensures |r| <= |augmented|
    ensures |r| == 0 <==> forall i :: 0 <= i < |augmented| ==> !SameKey(t, augmented[i])
    ensures forall k :: 0 <= k < |r| ==> PartnerOf(t, augmented, r[k])
    ensures forall i :: 0 <= i < |augmented| && SameKey(t, augmented[i]) ==> augmented[i].nearestStop in r
  {
    if |augmented| == 0 then []
    else
      var rest := PartnerStops(t, augmented[1..]);
      assert forall k :: 0 <= k < |rest| ==> PartnerOf(t, augmented, rest[k]) by {
        forall k | 0 <= k < |rest|
          ensures PartnerOf(t, augmented, rest[k])
        {
          PartnerInTail(t, augmented, rest[k]);
        }
      }
      assert forall i :: 1 <= i < |augmented| ==> augmented[i] == augmented[1..][i - 1];
      (if SameKey(t, augmented[0]) then [augmented[0].nearestStop] else []) + rest
  }

  /** A partner found in the tail of the feed is a partner in the feed. */
  lemma PartnerInTail(t: BusSpeed.SpeedRow, augmented: seq<Augmented>, o: Option<string>)
    requires |augmented| > 0 && PartnerOf(t, augmented[1..], o)
    ensures PartnerOf(t, augmented, o)
  {
    var i :| 0 <= i < |augmented[1..]| && SameKey(t, augmented[1..][i]) && o == augmented[1..][i].nearestStop;
    assert augmented[1..][i] == augmented[i + 1];
  }

  /** The rows a left merge makes of one too-fast row: one per partner, or a single NaN stop. */
  function Partners(t: BusSpeed.SpeedRow, augmented: seq<Augmented>): (r: seq<Option<string>>)
    ensures |r| >= 1
  {
    var stops := PartnerStops(t, augmented);
    if |stops| == 0 then [None] else stops
  }

  /** The `nearest_stop` column of the left merge of the too-fast rows with the augmented feed. */
  function Join(tooFast: seq<BusSpeed.SpeedRow>, augmented: seq<Augmented>): (r: seq<Option<string>>)
    ensures |r| >= |tooFast|
    ensures forall k :: 0 <= k < |r| && r[k].Some? ==> StopOfSomeRow(augmented, r[k])
  {
    if |tooFast| == 0 then []
    else
      var head := Partners(tooFast[0], augmented);
      assert forall k :: 0 <= k < |head| && head[k].Some? ==> StopOfSomeRow(augmented, head[k]) by {
        forall k | 0 <= k < |head| && head[k].Some?
          ensures StopOfSomeRow(augmented, head[k])
        {
          assert PartnerOf(tooFast[0], augmented, head[k]);
        }
      }
      head + Join(tooFast[1..], augmented)
  }

  /** `o` is the `nearest_stop` of some augmented row. */
  predicate StopOfSomeRow(augmented: seq<Augmented>, o: Option<string>)
  {
    exists i :: 0 <= i < |augmented| && augmented[i].nearestStop == o
  }

  /** Every too-fast row stays in the merge: each of its partners' stops appears, and a row without partner appears as NaN. */
  lemma JoinKeepsRows(tooFast: seq<BusSpeed.SpeedRow>, augmented: seq<Augmented>)
    ensures forall k, i :: 0 <= k < |tooFast| && 0 <= i < |augmented| && SameKey(tooFast[k], augmented[i]) ==>
      augmented[i].nearestStop in Join(tooFast, augmented)
    ensures forall k :: 0 <= k < |tooFast| && (forall i :: 0 <= i < |augmented| ==> !SameKey(tooFast[k], augmented[i])) ==>
      None in Join(tooFast, augmented)
  {
    var join := Join(tooFast, augmented);
    forall k, i | 0 <= k < |tooFast| && 0 <= i < |augmented| && SameKey(tooFast[k], augmented[i])
      ensures augmented[i].nearestStop in join
    {
      PartnersInJoin(tooFast, augmented, k);
      assert augmented[i].nearestStop in Partners(tooFast[k], augmented);
    }
    forall k | 0 <= k < |tooFast| && (forall i :: 0 <= i < |augmented| ==> !SameKey(tooFast[k], augmented[i]))
      ensures None in join
    {
      PartnersInJoin(tooFast, augmented, k);
      assert Partners(tooFast[k], augmented) == [None];
    }
  }

  /** The merged rows of one too-fast row are among the merged rows of all of them. */
  lemma PartnersInJoin(tooFast: seq<BusSpeed.SpeedRow>, augmented: seq<Augmented>, k: int)
    requires 0 <= k < |tooFast|
    ensures forall o :: o in Partners(tooFast[k], augmented) ==> o in Join(tooFast, augmented)
  {
    var t := tooFast[k];
    assert tooFast == tooFast[..k] + ([t] + tooFast[k + 1..]);
    JoinAppend(tooFast[..k], [t] + tooFast[k + 1..], augmented);
    JoinAppend([t], tooFast[k + 1..], augmented);
    assert [t][1..] == [];
    assert Join([t], augmented) == Partners(t, augmented);
  }

  /** The merge works row by row over the too-fast rows. */
  lemma {:induction false} JoinAppend(a: seq<BusSpeed.SpeedRow>, b: seq<BusSpeed.SpeedRow>, augmented: seq<Augmented>)
    ensures Join(a + b, augmented) == Join(a, augmented) + Join(b, augmented)
  {
    if |a| == 0 {
      assert a + b == b;
    } else {
      assert (a + b)[0] == a[0] && (a + b)[1..] == a[1..] + b;
      JoinAppend(a[1..], b, augmented);
    }
  }

  /** Partner lookup works row by row over the augmented feed. */
  lemma {:induction false} PartnerStopsAppend(t: BusSpeed.SpeedRow, a: seq<Augmented>, b: seq<Augmented>)
    ensures PartnerStops(t, a + b) == PartnerStops(t, a) + PartnerStops(t, b)
  {
    if |a| == 0 {
      assert a + b == b;
    } else {
      assert (a + b)[0] == a[0] && (a + b)[1..] == a[1..] + b;
      PartnerStopsAppend(t, a[1..], b);
    }
  }

  /** The indices among the first `m` augmented rows that share `t`'s key and carry stop `o`. */
  function KeyRowsAt(t: BusSpeed.SpeedRow, augmented: seq<Augmented>, o: Option<string>, m: nat): set<int>
    requires m <= |augmented|
  {
    set j | 0 <= j < m && SameKey(t, augmented[j]) && augmented[j].nearestStop == o
  }

  /** The indices among the first `m` augmented rows that share `t`'s key. */
  function KeyRows(t: BusSpeed.SpeedRow, augmented: seq<Augmented>, m: nat): set<int>
    requires m <= |augmented|
  {
    set j | 0 <= j < m && SameKey(t, augmented[j])
  }

  /**
    The merge gives a too-fast row one entry per augmented row sharing its
    key, and each stop as often as those rows carry it.
   */
  lemma PartnerStopsCount(t: BusSpeed.SpeedRow, augmented: seq<Augmented>, o: Option<string>)
    ensures |PartnerStops(t, augmented)| == |set j | 0 <= j < |augmented| && SameKey(t, augmented[j])|
    ensures multiset(PartnerStops(t, augmented))[o] ==
      |set j | 0 <= j < |augmented| && SameKey(t, augmented[j]) && augmented[j].nearestStop == o|
  {
    PartnerStopsPrefixCount(t, augmented, o, |augmented|);
    assert augmented[..|augmented|] == augmented;
  }

  lemma {:induction false} PartnerStopsPrefixCount(t: BusSpeed.SpeedRow, augmented: seq<Augmented>, o: Option<string>, m: nat)
    requires m <= |augmented|
    ensures |PartnerStops(t, augmented[..m])| == |KeyRows(t, augmented, m)|
    ensures multiset(PartnerStops(t, augmented[..m]))[o] == |KeyRowsAt(t, augmented, o, m)|
  {
    if m == 0 {
      assert KeyRows(t, augmented, 0) == {} && KeyRowsAt(t, augmented, o, 0) == {};
    } else {
      var n := m - 1;
      PartnerStopsPrefixCount(t, augmented, o, n);
      PartnerStopsStep(t, augmented, n);
      KeyRowsStep(t, augmented, n);
      KeyRowsAtStep(t, augmented, o, n);
    }
  }

  lemma PartnerStopsStep(t: BusSpeed.SpeedRow, augmented: seq<Augmented>, n: nat)
    requires n < |augmented|
    ensures PartnerStops(t, augmented[..n + 1]) ==
      PartnerStops(t, augmented[..n]) + if SameKey(t, augmented[n]) then [augmented[n].nearestStop] else []
  {
    assert augmented[..n + 1] == augmented[..n] + [augmented[n]];
    PartnerStopsAppend(t, augmented[..n], [augmented[n]]);
    assert [augmented[n]][1..] == [];
  }

  lemma KeyRowsStep(t: BusSpeed.SpeedRow, augmented: seq<Augmented>, n: nat)
    requires n < |augmented|
    ensures |KeyRows(t, augmented, n + 1)| == |KeyRows(t, augmented, n)| + if SameKey(t, augmented[n]) then 1 else 0
  {
    assert n !in KeyRows(t, augmented, n);
    if SameKey(t, augmented[n]) {
      assert KeyRows(t, augmented, n + 1) == KeyRows(t, augmented, n) + {n};
    } else {
      assert KeyRows(t, augmented, n + 1) == KeyRows(t, augmented, n);
    }
  }

  lemma KeyRowsAtStep(t: BusSpeed.SpeedRow, augmented: seq<Augmented>, o: Option<string>, n: nat)
    requires n < |augmented|
    ensures |KeyRowsAt(t, augmented, o, n + 1)| ==
      |KeyRowsAt(t, augmented, o, n)| + if SameKey(t, augmented[n]) && augmented[n].nearestStop == o then 1 else 0
  {
    assert n !in KeyRowsAt(t, augmented, o, n);
    if SameKey(t, augmented[n]) && augmented[n].nearestStop == o {
      assert KeyRowsAt(t, augmented, o, n + 1) == KeyRowsAt(t, augmented, o, n) + {n};
    } else {
      assert KeyRowsAt(t, augmented, o, n + 1) == KeyRowsAt(t, augmented, o, n);
    }
  }

  /** The index pairs (too-fast row `i` < `n`, augmented row `j`) the merge pairs up and that land at `stop`. */
  function MergedPairs(tooFast: seq<BusSpeed.SpeedRow>, augmented: seq<Augmented>, stop: string, n: nat): set<(int, int)>
    requires n <= |tooFast|
  {
    set i, j | 0 <= i < n && 0 <= j < |augmented|
      && SameKey(tooFast[i], augmented[j]) && augmented[j].nearestStop == Some(stop) :: (i, j)
  }

  /** The pairs too-fast row `i` forms with the first `m` augmented rows at `stop`. */
  function RowPairs(tooFast: seq<BusSpeed.SpeedRow>, augmented: seq<Augmented>, stop: string, i: nat, m: nat): set<(int, int)>
    requires i < |tooFast| && m <= |augmented|
  {
    set j | 0 <= j < m && SameKey(tooFast[i], augmented[j]) && augmented[j].nearestStop == Some(stop) :: (i, j)
  }

  /**
    The per-stop violation count in general: the merged column holds `stop`
    once per pair of a too-fast row and an augmented row that share the
    (vehicle, time) key and are matched to `stop`.
   */
  lemma JoinCount(tooFast: seq<BusSpeed.SpeedRow>, augmented: seq<Augmented>, stop: string)
    ensures multiset(Join(tooFast, augmented))[Some(stop)] ==
      |set i, j | 0 <= i < |tooFast| && 0 <= j < |augmented|
         && SameKey(tooFast[i], augmented[j]) && augmented[j].nearestStop == Some(stop) :: (i, j)|
  {
    JoinPrefixCount(tooFast, augmented, stop, |tooFast|);
    assert tooFast[..|tooFast|] == tooFast;
  }

  lemma {:induction false} JoinPrefixCount(tooFast: seq<BusSpeed.SpeedRow>, augmented: seq<Augmented>, stop: string, n: nat)
    requires n <= |tooFast|
    ensures multiset(Join(tooFast[..n], augmented))[Some(stop)] == |MergedPairs(tooFast, augmented, stop, n)|
  {
    if n == 0 {
      assert MergedPairs(tooFast, augmented, stop, 0) == {};
    } else {
      var m := n - 1;
      JoinPrefixCount(tooFast, augmented, stop, m);
      JoinStep(tooFast, augmented, m);
      PartnersCount(tooFast[m], augmented, stop);
      RowPairsCount(tooFast, augmented, stop, m, |augmented|);
      MergedPairsStep(tooFast, augmented, stop, m);
    }
  }

  lemma JoinStep(tooFast: seq<BusSpeed.SpeedRow>, augmented: seq<Augmented>, m: nat)
    requires m < |tooFast|
    ensures Join(tooFast[..m + 1], augmented) == Join(tooFast[..m], augmented) + Partners(tooFast[m], augmented)
  {
    assert tooFast[..m + 1] == tooFast[..m] + [tooFast[m]];
    JoinAppend(tooFast[..m], [tooFast[m]], augmented);
    assert [tooFast[m]][1..] == [];
  }

  /** A too-fast row adds `stop` to the merge once per augmented row sharing its key at `stop`. */
  lemma PartnersCount(t: BusSpeed.SpeedRow, augmented: seq<Augmented>, stop: string)
    ensures multiset(Partners(t, augmented))[Some(stop)] == |KeyRowsAt(t, augmented, Some(stop), |augmented|)|
  {
    PartnerStopsCount(t, augmented, Some(stop));
    assert KeyRowsAt(t, augmented, Some(stop), |augmented|) ==
      set j | 0 <= j < |augmented| && SameKey(t, augmented[j]) && augmented[j].nearestStop == Some(stop);
  }

  lemma MergedPairsStep(tooFast: seq<BusSpeed.SpeedRow>, augmented: seq<Augmented>, stop: string, m: nat)
    requires m < |tooFast|
    ensures |MergedPairs(tooFast, augmented, stop, m + 1)| ==
      |MergedPairs(tooFast, augmented, stop, m)| + |RowPairs(tooFast, augmented, stop, m, |augmented|)|
  {
    var before := MergedPairs(tooFast, augmented, stop, m);
    var row := RowPairs(tooFast, augmented, stop, m, |augmented|);
    assert MergedPairs(tooFast, augmented, stop, m + 1) == before + row;
    assert before * row == {};
  }

  lemma {:induction false} RowPairsCount(tooFast: seq<BusSpeed.SpeedRow>, augmented: seq<Augmented>, stop: string, i: nat, m: nat)
    requires i < |tooFast| && m <= |augmented|
    ensures |RowPairs(tooFast, augmented, stop, i, m)| == |KeyRowsAt(tooFast[i], augmented, Some(stop), m)|
  {
    if m == 0 {
      assert RowPairs(tooFast, augmented, stop, i, 0) == {} && KeyRowsAt(tooFast[i], augmented, Some(stop), 0) == {};
    } else {
      var n := m - 1;
      RowPairsCount(tooFast, augmented, stop, i, n);
      KeyRowsAtStep(tooFast[i], augmented, Some(stop), n);
      assert (i, n) !in RowPairs(tooFast, augmented, stop, i, n);
      if SameKey(tooFast[i], augmented[n]) && augmented[n].nearestStop == Some(stop) {
        assert RowPairs(tooFast, augmented, stop, i, m) == RowPairs(tooFast, augmented, stop, i, n) + {(i, n)};
      } else {
        assert RowPairs(tooFast, augmented, stop, i, m) == RowPairs(tooFast, augmented, stop, i, n);
      }
    }
  }

  /** The stops some augmented row is matched to (the groups of `groupby("nearest_stop")`, NaN dropped). */
  function MatchedStops(augmented: seq<Augmented>): (r: set<string>)
    ensures forall s :: s in r <==> exists i :: 0 <= i < |augmented| && augmented[i].nearestStop == Some(s)
  {
    set a | a in augmented && a.nearestStop.Some? :: a.nearestStop.value
  }

  /** The distinct vehicles among the augmented rows matched to `stop` (`nunique`). */
  function Vehicles(augmented: seq<Augmented>, stop: string): (r: set<string>)
    ensures forall v :: v in r <==>
      exists i :: 0 <= i < |augmented| && augmented[i].nearestStop == Some(stop) && augmented[i].sample.vehicle == v
  {
    set a | a in augmented && a.nearestStop == Some(stop) :: a.sample.vehicle
  }

  datatype StopSummary = StopSummary(violations: nat, measurements: nat, percentage: real)

  function Percentage(violations: nat, measurements: nat): (p: real)
    requires measurements > 0
    ensures p * measurements as real == 100.0 * violations as real
    ensures p >= SignificantPercentage <==> 5 * violations >= measurements
    ensures 0.0 <= p
  {
    var p := 100.0 * violations as real / measurements as real;
    ThresholdIsFifth(p, violations as real, measurements as real);
    p
  }

  /** With p * m == 100 * v and m > 0, p reaches 20 exactly when 5 * v reaches m. */
  lemma ThresholdIsFifth(p: real, v: real, m: real)
    requires m > 0.0 && p == 100.0 * v / m
    ensures p * m == 100.0 * v
    ensures p >= SignificantPercentage <==> 5.0 * v >= m
  {
    assert p * m == 100.0 * v;
    if p >= 20.0 {
      assert p * m >= 20.0 * m;
    } else {
      assert p * m < 20.0 * m;
    }
  }

  /** Every stop of the merged column is a matched stop. */
  lemma JoinedStopsMatched(tooFast: seq<BusSpeed.SpeedRow>, augmented: seq<Augmented>)
    ensures forall o :: o in Join(tooFast, augmented) && o.Some? ==> o.value in MatchedStops(augmented)
  {
    var join := Join(tooFast, augmented);
    forall o | o in join && o.Some?
      ensures o.value in MatchedStops(augmented)
    {
      var k :| 0 <= k < |join| && join[k] == o;
      var i :| 0 <= i < |augmented| && augmented[i].nearestStop == o;
      assert augmented[i] in augmented;
    }
  }

  /** A matched stop has at least one measurement: the vehicle of a row matched to it. */
  lemma MatchedStopMeasured(augmented: seq<Augmented>, stop: string)
    requires stop in MatchedStops(augmented)
    ensures |Vehicles(augmented, stop)| >= 1
  {
    var a :| a in augmented && a.nearestStop == Some(stop);
    assert a.sample.vehicle in Vehicles(augmented, stop);
  }

  /** The summary entry of a matched stop. */
  function SummaryAt(tooFast: seq<BusSpeed.SpeedRow>, augmented: seq<Augmented>, stop: string): (r: StopSummary)
    requires stop in MatchedStops(augmented)
    ensures r.measurements >= 1
    ensures r.percentage == Percentage(r.violations, r.measurements)
    ensures Significant(r) <==> 5 * r.violations >= r.measurements
  {
    MatchedStopMeasured(augmented, stop);
    var violations := multiset(Join(tooFast, augmented))[Some(stop)];
    var measurements := |Vehicles(augmented, stop)|;
    StopSummary(violations, measurements, Percentage(violations, measurements))
  }

  /**
    The violation summary: one entry per stop in either count (missing
    counts read as 0). Its keys are exactly the matched stops, every entry
    has at least one measurement, and the percentage is 100 times
    violations over measurements.
   */
  function Summarize(tooFast: seq<BusSpeed.SpeedRow>, augmented: seq<Augmented>): (r: map<string, StopSummary>)
    ensures r.Keys == MatchedStops(augmented)
    ensures forall s :: s in r ==>
      && r[s].violations == multiset(Join(tooFast, augmented))[Some(s)]
      && r[s].measurements == |Vehicles(augmented, s)|
      && r[s].measurements >= 1
      && r[s].percentage == Percentage(r[s].violations, r[s].measurements)
    ensures forall s :: s in r ==> (Significant(r[s]) <==> 5 * r[s].violations >= r[s].measurements)
  {
    var join := Join(tooFast, augmented);
    var keys := (set o | o in join && o.Some? :: o.value) + MatchedStops(augmented);
    JoinedStopsMatched(tooFast, augmented);
    assert keys == MatchedStops(augmented);
    map s | s in keys :: SummaryAt(tooFast, augmented, s)
  }

  /** The summary's violation count of a matched stop is the number of merged pairs landing there. */
  lemma SummaryCountsPairs(tooFast: seq<BusSpeed.SpeedRow>, augmented: seq<Augmented>, stop: string)
    requires stop in MatchedStops(augmented)
    ensures stop in Summarize(tooFast, augmented)
    ensures Summarize(tooFast, augmented)[stop].violations ==
      |set i, j | 0 <= i < |tooFast| && 0 <= j < |augmented|
         && SameKey(tooFast[i], augmented[j]) && augmented[j].nearestStop == Some(stop) :: (i, j)|
  {
    JoinCount(tooFast, augmented, stop);
  }

  predicate Significant(s: StopSummary)
  {
    s.percentage >= SignificantPercentage
  }

  /** The entries at or above the threshold. */
  function SignificantStops(summary: map<string, StopSummary>): (r: map<string, StopSummary>)
    ensures forall s :: s in r <==> s in summary && Significant(summary[s])
    ensures forall s :: s in r ==> r[s] == summary[s]
  {
    map s | s in summary && Significant(summary[s]) :: summary[s]
  }

  /** A stop is flagged exactly when it was matched and five times its violations reach its measurements. */
  lemma SignificantIffFifth(tooFast: seq<BusSpeed.SpeedRow>, augmented: seq<Augmented>, stop: string)
    ensures
      var sm := Summarize(tooFast, augmented);
      stop in SignificantStops(sm) <==>
        stop in MatchedStops(augmented) && 5 * sm[stop].violations >= sm[stop].measurements
  {
  }

  /** `t` is joined to an augmented row matched to `stop`. */
  predicate JoinsAt(t: BusSpeed.SpeedRow, augmented: seq<Augmented>, stop: string)
  {
    exists i :: 0 <= i < |augmented| && SameKey(t, augmented[i]) && augmented[i].nearestStop == Some(stop)
  }

  /** No two augmented rows share a (vehicle, time) key. */
  predicate UniqueKeys(augmented: seq<Augmented>)
  {
    forall i, j :: 0 <= i < j < |augmented| ==>
      !(augmented[i].sample.vehicle == augmented[j].sample.vehicle && augmented[i].sample.time == augmented[j].sample.time)
  }

  lemma {:induction false} UniquePartner(t: BusSpeed.SpeedRow, augmented: seq<Augmented>)
    requires UniqueKeys(augmented)
    ensures |PartnerStops(t, augmented)| <= 1
  {
    if |augmented| > 0 {
      var rest := augmented[1..];
      assert UniqueKeys(rest) by {
        forall i, j | 0 <= i < j < |rest|
          ensures !(rest[i].sample.vehicle == rest[j].sample.vehicle && rest[i].sample.time == rest[j].sample.time)
        {
          assert rest[i] == augmented[i + 1] && rest[j] == augmented[j + 1];
        }
      }
      UniquePartner(t, rest);
      if SameKey(t, augmented[0]) {
        forall j | 0 <= j < |rest|
          ensures !SameKey(t, rest[j])
        {
          assert rest[j] == augmented[j + 1];
        }
      }
    }
  }

  /** A too-fast row with at most one partner adds one to the count of the stop it is joined to and nothing elsewhere. */
  lemma PartnerCountAt(t: BusSpeed.SpeedRow, augmented: seq<Augmented>, stop: string)
    requires |PartnerStops(t, augmented)| <= 1
    ensures multiset(Partners(t, augmented))[Some(stop)] == if JoinsAt(t, augmented, stop) then 1 else 0
  {
    var ps := PartnerStops(t, augmented);
    if |ps| == 0 {
      assert Partners(t, augmented) == [None];
      assert !JoinsAt(t, augmented, stop);
    } else {
      assert Partners(t, augmented) == ps == [ps[0]];
      var i0 :| 0 <= i0 < |augmented| && SameKey(t, augmented[i0]) && ps[0] == augmented[i0].nearestStop;
      if JoinsAt(t, augmented, stop) {
        var i :| 0 <= i < |augmented| && SameKey(t, augmented[i]) && augmented[i].nearestStop == Some(stop);
        assert augmented[i].nearestStop in ps;
      }
      assert ps[0] == Some(stop) ==> JoinsAt(t, augmented, stop);
    }
  }

  /**
    When the augmented feed has one row per (vehicle, time), a stop's
    violation count is the number of too-fast rows joined to it.
   */
  lemma {:induction false} ViolationsCountRows(tooFast: seq<BusSpeed.SpeedRow>, augmented: seq<Augmented>, stop: string)
    requires UniqueKeys(augmented)
    ensures multiset(Join(tooFast, augmented))[Some(stop)] ==
      |Filter(tooFast, (t: BusSpeed.SpeedRow) => JoinsAt(t, augmented, stop))|
  {
    if |tooFast| > 0 {
      ViolationsCountRows(tooFast[1..], augmented, stop);
      UniquePartner(tooFast[0], augmented);
      PartnerCountAt(tooFast[0], augmented, stop);
      assert Join(tooFast, augmented) == Partners(tooFast[0], augmented) + Join(tooFast[1..], augmented);
    }
  }

  /** The merged column of two too-fast rows is their partner columns one after the other. */
  lemma JoinOfTwo(t0: BusSpeed.SpeedRow, t1: BusSpeed.SpeedRow, augmented: seq<Augmented>)
    ensures Join([t0, t1], augmented) == Partners(t0, augmented) + Partners(t1, augmented)
  {
    assert [t0, t1][1..] == [t1];
    assert Join([t1], augmented) == Partners(t1, augmented) + Join([], augmented);
  }

  /** A too-fast row whose key matches exactly one of two augmented rows. */
  lemma OnePartnerOfTwo(t: BusSpeed.SpeedRow, x: Augmented, y: Augmented)
    requires SameKey(t, x) != SameKey(t, y)
    ensures Partners(t, [x, y]) == [if SameKey(t, x) then x.nearestStop else y.nearestStop]
  {
    assert [x, y][1..] == [y];
    assert PartnerStops(t, [y]) == (if SameKey(t, y) then [y.nearestStop] else []) + PartnerStops(t, []);
  }

  /** The counts of the two-row example: two joined rows, one vehicle. */
  lemma TwoRowCounts(v: string, a: Sample, b: Sample, stop: string)
    requires a.vehicle == v && b.vehicle == v && a.time != b.time
    ensures
      var aug := [Augmented(a, Some(stop), None, Some(3.0), true), Augmented(b, Some(stop), None, Some(3.0), true)];
      var fast := [BusSpeed.SpeedRow(a, 60.0), BusSpeed.SpeedRow(b, 70.0)];
      && stop in MatchedStops(aug)
      && multiset(Join(fast, aug))[Some(stop)] == 2
      && |Vehicles(aug, stop)| == 1
  {
    var aug := [Augmented(a, Some(stop), None, Some(3.0), true), Augmented(b, Some(stop), None, Some(3.0), true)];
    var fast := [BusSpeed.SpeedRow(a, 60.0), BusSpeed.SpeedRow(b, 70.0)];
    assert aug[0] in aug;
    assert Vehicles(aug, stop) == {v};
    OnePartnerOfTwo(fast[0], aug[0], aug[1]);
    OnePartnerOfTwo(fast[1], aug[0], aug[1]);
    JoinOfTwo(fast[0], fast[1], aug);
    assert Join(fast, aug) == [Some(stop), Some(stop)];
  }

  /**
    The percentage is not capped at 100: two too-fast rows of one vehicle at
    one stop give 2 violations over 1 measurement.
   */
  lemma PercentageExceedsHundred(v: string, a: Sample, b: Sample, stop: string)
    requires a.vehicle == v && b.vehicle == v && a.time != b.time
    ensures
      var aug := [Augmented(a, Some(stop), None, Some(3.0), true), Augmented(b, Some(stop), None, Some(3.0), true)];
      var fast := [BusSpeed.SpeedRow(a, 60.0), BusSpeed.SpeedRow(b, 70.0)];
      Summarize(fast, aug)[stop] == StopSummary(2, 1, 200.0)
  {
    TwoRowCounts(v, a, b, stop);
  }
}
