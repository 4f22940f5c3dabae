/**
  Nearest-stop matching (`find_nearest_stop`): every position sample is
  compared with the stop rows of its own line, and the closest one, its
  distance and the 15 m "at stop" flag are recorded.
 */
module NearestStop {
  import opened Tables

  /** A sample is "at" its nearest stop when it is at most this many metres away. */
  const AtStopMetres: real := 15.0

  /** The route-table rows of `line`, in table order (one group of `groupby("route")`). */
  function LineStops(stops: seq<RouteStop>, line: string): (g: seq<RouteStop>)
    ensures forall r :: r in g <==> r in stops && r.route == line
  {
    Filter(stops, (r: RouteStop) => r.route == line)
  }

  /**
    Grouping keeps the table: the line's rows come out in table order, a
    table split in two gives the two groups one after the other, and every
    occurrence of a row of the line is kept.
   */
  lemma LineStopsInOrder(a: seq<RouteStop>, b: seq<RouteStop>, line: string)
    ensures LineStops(a + b, line) == LineStops(a, line) + LineStops(b, line)
    ensures forall r :: multiset(LineStops(a, line))[r] == if r.route == line then multiset(a)[r] else 0
  {
    FilterAppend(a, b, (r: RouteStop) => r.route == line);
    FilterCounts(a, (r: RouteStop) => r.route == line);
  }

  predicate HasCoords(r: RouteStop)
  {
    r.lat.Some? && r.lon.Some?
  }

  function StopPosition(r: RouteStop): Coord
    requires HasCoords(r)
  {
    Coord(r.lat.value, r.lon.value)
  }

  /** The rows of a group left after `dropna` on the two coordinate columns. */
  function Located(g: seq<RouteStop>): (l: seq<RouteStop>)
    ensures |l| <= |g|
    ensures forall r :: r in l <==> r in g && HasCoords(r)
  {
    Filter(g, HasCoords)
  }

  /** `dropna` keeps the located rows in group order, each as often as the group holds it. */
  lemma LocatedInOrder(a: seq<RouteStop>, b: seq<RouteStop>)
    ensures Located(a + b) == Located(a) + Located(b)
    ensures forall r :: multiset(Located(a))[r] == if HasCoords(r) then multiset(a)[r] else 0
  {
    FilterAppend(a, b, HasCoords);
    FilterCounts(a, HasCoords);
  }

  /**
    The source skips a line when its group is empty or when one coordinate
    column is missing on every row.
   */
  predicate Usable(g: seq<RouteStop>)
  {
    && |g| > 0
    && (exists i :: 0 <= i < |g| && g[i].lat.Some?)
    && (exists i :: 0 <= i < |g| && g[i].lon.Some?)
  }

  /**
    A group with a located row passes the skip test; the converse fails
    only when the latitudes and longitudes sit on different rows.
   */
  lemma LocatedGroupIsUsable(g: seq<RouteStop>)
    ensures |Located(g)| > 0 ==> Usable(g)
    ensures Usable(g) && |Located(g)| == 0 ==>
      (exists i :: 0 <= i < |g| && g[i].lat.Some? && g[i].lon.None?)
      && (exists i :: 0 <= i < |g| && g[i].lat.None? && g[i].lon.Some?)
  {
    if |Located(g)| > 0 {
      var r := Located(g)[0];
      assert r in g;
      var i :| 0 <= i < |g| && g[i] == r;
      assert g[i].lat.Some? && g[i].lon.Some?;
    }
    if Usable(g) && |Located(g)| == 0 {
      var i :| 0 <= i < |g| && g[i].lat.Some?;
      var j :| 0 <= j < |g| && g[j].lon.Some?;
      assert g[i] !in Located(g) && g[j] !in Located(g);
    }
  }

  /** The distances from `p` to every located stop, in order (one row of `haversine_distances`). */
  function Distances(p: Coord, located: seq<RouteStop>, metres: Metric): (ds: seq<real>)
    requires forall r :: r in located ==> HasCoords(r)
    ensures |ds| == |located|
    ensures forall i :: 0 <= i < |ds| ==> ds[i] == metres(p, StopPosition(located[i]))
  {
    seq(|located|, i requires 0 <= i < |located| => metres(p, StopPosition(located[i])))
  }

  /** numpy's `argmin`: the first index holding the least value. */
  function ArgMin(ds: seq<real>): (k: nat)
    requires |ds| > 0
    ensures k < |ds|
    ensures forall j :: 0 <= j < |ds| ==> ds[k] <= ds[j]
    ensures forall j :: 0 <= j < k ==> ds[k] < ds[j]
  {
    if |ds| == 1 then 0
    else
      var k := ArgMin(ds[..|ds| - 1]);
      if ds[|ds| - 1] < ds[k] then |ds| - 1 else k
  }

  /** What the matcher decides for one sample. */
  datatype Match =
    | Unmatched                                  // stop fields stay NaN, is_at_stop stays False
    | Nearest(stop: RouteStop, distance: real)   // the reported stop row and the recorded distance
    | NoLocatedStop                              // no row has both coordinates: the distance call raises

  /**
    The matcher as the code runs it: the argmin index is taken over the
    located stops, but the stop fields are read from the unfiltered group at
    that same index.
   */
  function MatchAsWritten(s: Sample, stops: seq<RouteStop>, metres: Metric): (m: Match)
    ensures m.Unmatched? <==> Position(s).None? || !Usable(LineStops(stops, s.line))
    ensures m.NoLocatedStop? <==>
      && Position(s).Some?
      && Usable(LineStops(stops, s.line))
      && forall r :: r in stops && r.route == s.line ==> !HasCoords(r)
    ensures m.Nearest? ==> m.stop in stops && m.stop.route == s.line && 0.0 <= m.distance
    ensures m.Nearest? ==>
      var g := LineStops(stops, s.line);
      var l := Located(g);
      exists k :: 0 <= k < |l| && k < |g| && m.stop == g[k]
        && m.distance == metres(Position(s).value, StopPosition(l[k]))
        && forall j :: 0 <= j < k ==> m.distance < metres(Position(s).value, StopPosition(l[j]))
    ensures m.Nearest? ==>
      forall r :: r in stops && r.route == s.line && HasCoords(r) ==>
        m.distance <= metres(Position(s).value, StopPosition(r))
  {
    match Position(s)
    case None => Unmatched
    case Some(p) =>
      var g := LineStops(stops, s.line);
      if !Usable(g) then Unmatched
      else
        var l := Located(g);
        if |l| == 0 then NoLocatedStop
        else
          var ds := Distances(p, l, metres);
          var k := ArgMin(ds);
          LocatedIndexInGroup(g, l[k]);
          Nearest(g[k], ds[k])
  }

  /**
    The matcher the code evidently means: the stop whose distance was
    minimal, the first one in table order on a tie.
   */
  function MatchNearest(s: Sample, stops: seq<RouteStop>, metres: Metric): (m: Match)
    ensures m.Unmatched? <==> Position(s).None? || !Usable(LineStops(stops, s.line))
    ensures m.Nearest? ==>
      && m.stop in stops && m.stop.route == s.line && HasCoords(m.stop)
      && m.distance == metres(Position(s).value, StopPosition(m.stop))
    ensures m.Nearest? ==>
      forall r :: r in stops && r.route == s.line && HasCoords(r) ==>
        m.distance <= metres(Position(s).value, StopPosition(r))
    ensures m.Nearest? ==>
      var l := Located(LineStops(stops, s.line));
      exists k :: 0 <= k < |l| && m.stop == l[k]
        && forall j :: 0 <= j < k ==> m.distance < metres(Position(s).value, StopPosition(l[j]))
  {
    match Position(s)
    case None => Unmatched
    case Some(p) =>
      var g := LineStops(stops, s.line);
      if !Usable(g) then Unmatched
      else
        var l := Located(g);
        if |l| == 0 then NoLocatedStop
        else
          var ds := Distances(p, l, metres);
          var k := ArgMin(ds);
          Nearest(l[k], ds[k])
  }

  /** A located row of a group is one of the group's rows, so the group is at least that long. */
  lemma LocatedIndexInGroup(g: seq<RouteStop>, r: RouteStop)
    requires r in Located(g)
    ensures r in g && |Located(g)| <= |g|
  {
  }

  /**
    When every stop row of the sample's line carries coordinates the two
    matchers agree, so the misalignment only shows on lines with
    coordinate-less rows.
   */
  lemma AsWrittenMatchesNearestWhenLocated(s: Sample, stops: seq<RouteStop>, metres: Metric)
    requires forall r :: r in stops && r.route == s.line ==> HasCoords(r)
    ensures MatchAsWritten(s, stops, metres) == MatchNearest(s, stops, metres)
  {
    var g := LineStops(stops, s.line);
    FilterKeepsAll(g, HasCoords);
    assert Located(g) == g;
  }

  /**
    The misalignment on a concrete line: the first row has no coordinates,
    the second has; the code reports the first row with the second row's
    distance, the intended matcher reports the second row.
   */
  lemma MisalignedExample(metres: Metric)
    ensures
      var a := RouteStop("7001", "01", "100", Text("1"), [], None, None);
      var b := RouteStop("7002", "01", "100", Text("2"), [], Some(52.0), Some(21.0));
      var s := Sample("1000", "100", Some(52.0), Some(21.0), Timestamp(0, 0));
      var d := metres(Coord(52.0, 21.0), Coord(52.0, 21.0));
      && MatchAsWritten(s, [a, b], metres) == Nearest(a, d)
      && MatchNearest(s, [a, b], metres) == Nearest(b, d)
  {
    var a := RouteStop("7001", "01", "100", Text("1"), [], None, None);
    var b := RouteStop("7002", "01", "100", Text("2"), [], Some(52.0), Some(21.0));
    var s := Sample("1000", "100", Some(52.0), Some(21.0), Timestamp(0, 0));
    var g := LineStops([a, b], "100");
    assert g == [a, b];
    assert Usable(g) by {
      assert g[1].lat.Some? && g[1].lon.Some?;
    }
    assert Located(g) == [b];
  }

  /** The columns `find_nearest_stop` writes for one sample. */
  function Augment(s: Sample, m: Match): (a: Augmented)
    ensures a.sample == s
    ensures a.nearestStop.Some? <==> m.Nearest?
    ensures a.atStop <==> m.Nearest? && m.distance <= AtStopMetres
    ensures m.Nearest? ==>
      && a.nearestStop == Some(m.stop.stopGroup)
      && a.nearestPost == Some(m.stop.stopPost)
      && a.distance == Some(m.distance)
    ensures !m.Nearest? ==> a.nearestPost.None? && a.distance.None? && !a.atStop
  {
    match m
    case Nearest(r, d) => Augmented(s, Some(r.stopGroup), Some(r.stopPost), Some(d), d <= AtStopMetres)
    case _ => Augmented(s, None, None, None, false)
  }

  /** The stop fields of `a` are those of some route-table row of its own line. */
  predicate StopFieldsFromLine(a: Augmented, stops: seq<RouteStop>)
  {
    exists row :: row in stops && row.route == a.sample.line
      && a.nearestStop == Some(row.stopGroup) && a.nearestPost == Some(row.stopPost)
  }

  /**
    The stop fields of `a` are those of the group row at the first index
    where the distance to the line's located stops is least, and the
    recorded distance is that least distance.
   */
  predicate ReportsArgmin(a: Augmented, stops: seq<RouteStop>, metres: Metric)
  {
    && Position(a.sample).Some?
    && a.distance.Some?
    && var p := Position(a.sample).value;
       var g := LineStops(stops, a.sample.line);
       var l := Located(g);
       exists k :: 0 <= k < |l| && k < |g|
         && a.nearestStop == Some(g[k].stopGroup) && a.nearestPost == Some(g[k].stopPost)
         && a.distance.value == metres(p, StopPosition(l[k]))
         && (forall j :: 0 <= j < |l| ==> a.distance.value <= metres(p, StopPosition(l[j])))
         && (forall j :: 0 <= j < k ==> a.distance.value < metres(p, StopPosition(l[j])))
  }

  /** The row written for a matched sample reports the argmin the matcher found. */
  lemma AugmentReportsArgmin(s: Sample, stops: seq<RouteStop>, metres: Metric)
    requires MatchAsWritten(s, stops, metres).Nearest?
    ensures ReportsArgmin(Augment(s, MatchAsWritten(s, stops, metres)), stops, metres)
  {
    var p := Position(s).value;
    var g := LineStops(stops, s.line);
    var l := Located(g);
    var ds := Distances(p, l, metres);
    var k := ArgMin(ds);
    LocatedIndexInGroup(g, l[k]);
    assert MatchAsWritten(s, stops, metres) == Nearest(g[k], ds[k]);
    var a := Augment(s, Nearest(g[k], ds[k]));
    assert a.distance == Some(ds[k]);
    ReportsArgminAt(a, stops, metres, p, g, l, ds, k);
  }

  /** The witness step of `AugmentReportsArgmin`, with the distances given as a sequence. */
  lemma ReportsArgminAt(a: Augmented, stops: seq<RouteStop>, metres: Metric,
                        p: Coord, g: seq<RouteStop>, l: seq<RouteStop>, ds: seq<real>, k: nat)
    requires Position(a.sample) == Some(p)
    requires g == LineStops(stops, a.sample.line) && l == Located(g)
    requires |ds| == |l| && forall j :: 0 <= j < |l| ==> ds[j] == metres(p, StopPosition(l[j]))
    requires k < |l| && k < |g|
    requires forall j :: 0 <= j < |ds| ==> ds[k] <= ds[j]
    requires forall j :: 0 <= j < k ==> ds[k] < ds[j]
    requires a.nearestStop == Some(g[k].stopGroup) && a.nearestPost == Some(g[k].stopPost)
    requires a.distance == Some(ds[k])
    ensures ReportsArgmin(a, stops, metres)
  {
  }

  /**
    `find_nearest_stop` over the whole feed: one augmented row per sample, in
    feed order, or `None` when some sample makes the argmin raise.
   */
  function FindNearestStop(samples: seq<Sample>, stops: seq<RouteStop>, metres: Metric): (r: Option<seq<Augmented>>)
    ensures r.None? <==> exists i :: 0 <= i < |samples| && MatchAsWritten(samples[i], stops, metres).NoLocatedStop?
    ensures r.Some? ==> |r.value| == |samples|
    ensures r.Some? ==> forall i :: 0 <= i < |samples| ==> r.value[i].sample == samples[i]
    ensures r.Some? ==> forall i :: 0 <= i < |samples| ==>
      (r.value[i].atStop <==> r.value[i].distance.Some? && r.value[i].distance.value <= AtStopMetres)
    ensures r.Some? ==> forall i :: 0 <= i < |samples| ==>
      (r.value[i].nearestStop.Some? <==> r.value[i].distance.Some?)
    ensures r.Some? ==> forall i ::
      (0 <= i < |samples| && (Position(samples[i]).None? || !Usable(LineStops(stops, samples[i].line)))) ==>
      r.value[i] == Augmented(samples[i], None, None, None, false)
    ensures r.Some? ==> forall i :: 0 <= i < |samples| && r.value[i].distance.Some? ==>
      && Position(samples[i]).Some?
      && forall row :: row in stops && row.route == samples[i].line && HasCoords(row) ==>
        r.value[i].distance.value <= metres(Position(samples[i]).value, StopPosition(row))
    ensures r.Some? ==> forall i :: 0 <= i < |samples| && r.value[i].nearestStop.Some? ==>
      StopFieldsFromLine(r.value[i], stops)
    ensures r.Some? ==> forall i :: 0 <= i < |samples| ==>
      (r.value[i].nearestStop.Some? <==> Position(samples[i]).Some? && Usable(LineStops(stops, samples[i].line)))
    ensures r.Some? ==> forall i :: 0 <= i < |samples| && r.value[i].nearestStop.Some? ==>
      ReportsArgmin(r.value[i], stops, metres)
    ensures r.Some? ==> forall i :: 0 <= i < |samples| ==>
      r.value[i] == Augment(samples[i], MatchAsWritten(samples[i], stops, metres))
  {
    if exists i :: 0 <= i < |samples| && MatchAsWritten(samples[i], stops, metres).NoLocatedStop? then None
    else
      var rows := seq(|samples|, i requires 0 <= i < |samples| => Augment(samples[i], MatchAsWritten(samples[i], stops, metres)));
      assert forall i :: 0 <= i < |samples| ==> RowWritten(rows[i], samples[i], stops, metres) by {
        forall i | 0 <= i < |samples|
          ensures RowWritten(rows[i], samples[i], stops, metres)
        {
          AugmentWritten(samples[i], stops, metres);
        }
      }
      Some(rows)
  }

  /** Everything `find_nearest_stop` promises about the row it writes for sample `s`. */
  predicate RowWritten(a: Augmented, s: Sample, stops: seq<RouteStop>, metres: Metric)
  {
    && a.sample == s
    && (a.atStop <==> a.distance.Some? && a.distance.value <= AtStopMetres)
    && (a.nearestStop.Some? <==> a.distance.Some?)
    && (a.nearestStop.Some? <==> Position(s).Some? && Usable(LineStops(stops, s.line)))
    && ((Position(s).None? || !Usable(LineStops(stops, s.line))) ==> a == Augmented(s, None, None, None, false))
    && (a.distance.Some? ==>
          && Position(s).Some?
          && forall row :: row in stops && row.route == s.line && HasCoords(row) ==>
               a.distance.value <= metres(Position(s).value, StopPosition(row)))
    && (a.nearestStop.Some? ==> StopFieldsFromLine(a, stops) && ReportsArgmin(a, stops, metres))
  }

  lemma AugmentWritten(s: Sample, stops: seq<RouteStop>, metres: Metric)
    requires !MatchAsWritten(s, stops, metres).NoLocatedStop?
    ensures RowWritten(Augment(s, MatchAsWritten(s, stops, metres)), s, stops, metres)
  {
    var m := MatchAsWritten(s, stops, metres);
    if m.Nearest? {
      AugmentReportsArgmin(s, stops, metres);
    }
  }
}
