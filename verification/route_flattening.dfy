/**
  Flattening of the route dictionary (`flatten_data_routes`): a mapping
  route -> direction -> bus_id -> stop record becomes one flat record per
  innermost entry, tagged with the three keys that led to it.
 */
module RouteFlattening {
  import opened Tables

  /** One stop record of the routes response: field name to value. */
  type Record = map<string, Cell>

  /** The three nesting levels, each in the mapping's iteration order. */
  datatype BusEntry = BusEntry(busId: string, info: Record)
  datatype Direction = Direction(name: string, buses: seq<BusEntry>)
  datatype Route = Route(name: string, directions: seq<Direction>)

  /**
    `bus_info.update({"route": …, "direction": …, "bus_id": …})`: the three
    keys are set, overriding any value the record already had under them, and
    every other field is kept.
   */
  function Tag(info: Record, route: string, direction: string, busId: string): (r: Record)
    ensures r.Keys == info.Keys + {"route", "direction", "bus_id"}
    ensures r["route"] == Text(route) && r["direction"] == Text(direction) && r["bus_id"] == Text(busId)
    ensures forall k :: k in info && k !in {"route", "direction", "bus_id"} ==> r[k] == info[k]
  {
    info["route" := Text(route)]["direction" := Text(direction)]["bus_id" := Text(busId)]
  }

  /** The record emitted for one key path. */
  function Entry(route: Route, direction: Direction, bus: BusEntry): Record
  {
    Tag(bus.info, route.name, direction.name, bus.busId)
  }

  function FlattenBuses(route: Route, direction: Direction, buses: seq<BusEntry>): (r: seq<Record>)
    ensures |r| == |buses|
    ensures forall k :: 0 <= k < |r| ==> r[k] == Entry(route, direction, buses[k])
  {
    if |buses| == 0 then []
    else [Entry(route, direction, buses[0])] + FlattenBuses(route, direction, buses[1..])
  }

  /** The records under one route: direction by direction, each in bus order. */
  function FlattenDirections(route: Route, directions: seq<Direction>): (r: seq<Record>)
    ensures |r| == RouteEntries(directions)
  {
    if |directions| == 0 then []
    else FlattenBuses(route, directions[0], directions[0].buses) + FlattenDirections(route, directions[1..])
  }

  /** `flatten_data_routes`: the records in key-path order, routes outermost; one per innermost entry. */
  function FlattenRoutes(routes: seq<Route>): (r: seq<Record>)
    ensures |r| == TotalEntries(routes)
  {
    if |routes| == 0 then []
    else FlattenDirections(routes[0], routes[0].directions) + FlattenRoutes(routes[1..])
  }

  /** The number of innermost entries under one route. */
  function RouteEntries(directions: seq<Direction>): nat
  {
    if |directions| == 0 then 0 else |directions[0].buses| + RouteEntries(directions[1..])
  }

  /** The number of innermost entries of the whole mapping. */
  function TotalEntries(routes: seq<Route>): nat
  {
    if |routes| == 0 then 0 else RouteEntries(routes[0].directions) + TotalEntries(routes[1..])
  }

  /** Within a route the records come out direction by direction. */
  lemma {:induction false} FlattenDirectionsAppend(route: Route, a: seq<Direction>, b: seq<Direction>)
    ensures FlattenDirections(route, a + b) == FlattenDirections(route, a) + FlattenDirections(route, b)
  {
    if |a| == 0 {
      assert a + b == b;
    } else {
      assert (a + b)[0] == a[0] && (a + b)[1..] == a[1..] + b;
      FlattenDirectionsAppend(route, a[1..], b);
    }
  }

  /** The records under one route are exactly those of its (direction, bus_id) key paths. */
  lemma {:induction false} FlattenDirectionsMembers(route: Route, directions: seq<Direction>, rec: Record)
    ensures rec in FlattenDirections(route, directions) <==>
      exists j, k :: 0 <= j < |directions| && 0 <= k < |directions[j].buses|
        && rec == Entry(route, directions[j], directions[j].buses[k])
  {
    if |directions| > 0 {
      FlattenDirectionsMembers(route, directions[1..], rec);
      var head := FlattenBuses(route, directions[0], directions[0].buses);
      if rec in head {
        var k :| 0 <= k < |head| && head[k] == rec;
        assert rec == Entry(route, directions[0], directions[0].buses[k]);
      }
      if exists j, k :: (0 <= j < |directions| && 0 <= k < |directions[j].buses|
        && rec == Entry(route, directions[j], directions[j].buses[k]))
      {
        var j, k :| 0 <= j < |directions| && 0 <= k < |directions[j].buses|
          && rec == Entry(route, directions[j], directions[j].buses[k]);
        if j == 0 {
          assert head[k] == rec;
        } else {
          assert directions[1..][j - 1] == directions[j];
        }
      }
    }
  }

  /** A record comes out exactly when it is the tagged record of some key path. */
  predicate Produces(routes: seq<Route>, rec: Record)
  {
    exists i, j, k :: 0 <= i < |routes| && 0 <= j < |routes[i].directions|
      && 0 <= k < |routes[i].directions[j].buses|
      && rec == Entry(routes[i], routes[i].directions[j], routes[i].directions[j].buses[k])
  }

  lemma {:induction false} FlattenMembers(routes: seq<Route>, rec: Record)
    ensures rec in FlattenRoutes(routes) <==> Produces(routes, rec)
  {
    if |routes| > 0 {
      FlattenMembers(routes[1..], rec);
      FlattenDirectionsMembers(routes[0], routes[0].directions, rec);
      if rec in FlattenDirections(routes[0], routes[0].directions) {
        var j, k :| 0 <= j < |routes[0].directions| && 0 <= k < |routes[0].directions[j].buses|
          && rec == Entry(routes[0], routes[0].directions[j], routes[0].directions[j].buses[k]);
        assert Produces(routes, rec);
      }
      if rec in FlattenRoutes(routes[1..]) {
        var i, j, k :| 0 <= i < |routes[1..]| && 0 <= j < |routes[1..][i].directions|
          && 0 <= k < |routes[1..][i].directions[j].buses|
          && rec == Entry(routes[1..][i], routes[1..][i].directions[j], routes[1..][i].directions[j].buses[k]);
        assert routes[1..][i] == routes[i + 1];
        assert Produces(routes, rec);
      }
      if Produces(routes, rec) {
        var i, j, k :| 0 <= i < |routes| && 0 <= j < |routes[i].directions|
          && 0 <= k < |routes[i].directions[j].buses|
          && rec == Entry(routes[i], routes[i].directions[j], routes[i].directions[j].buses[k]);
        if i > 0 {
          assert routes[1..][i - 1] == routes[i];
          assert Produces(routes[1..], rec);
        }
      }
    }
  }

  /** Every flat record names its route, direction and bus_id as text, so `bus_id` is never an integer. */
  lemma FlattenedKeysAreText(routes: seq<Route>, rec: Record)
    requires rec in FlattenRoutes(routes)
    ensures "route" in rec && "direction" in rec && "bus_id" in rec
    ensures rec["bus_id"].Text? && !EqualsInt(rec["bus_id"], 1)
    ensures exists i :: 0 <= i < |routes| && rec["route"] == Text(routes[i].name)
  {
    FlattenMembers(routes, rec);
    var i, j, k :| 0 <= i < |routes| && 0 <= j < |routes[i].directions|
      && 0 <= k < |routes[i].directions[j].buses|
      && rec == Entry(routes[i], routes[i].directions[j], routes[i].directions[j].buses[k]);
  }

  /** Flattening works route by route: the records of two route lists follow each other. */
  lemma {:induction false} FlattenAppend(a: seq<Route>, b: seq<Route>)
    ensures FlattenRoutes(a + b) == FlattenRoutes(a) + FlattenRoutes(b)
  {
    if |a| == 0 {
      assert a + b == b;
    } else {
      assert (a + b)[1..] == a[1..] + b;
      FlattenAppend(a[1..], b);
    }
  }

  /** A route without directions, or whose directions hold no buses, contributes nothing. */
  lemma {:induction false} EmptyRouteContributesNothing(routes: seq<Route>, route: Route)
    requires forall j :: 0 <= j < |route.directions| ==> |route.directions[j].buses| == 0
    ensures FlattenRoutes([route] + routes) == FlattenRoutes(routes)
  {
    NoEntries(route.directions);
    assert FlattenDirections(route, route.directions) == [];
    var all := [route] + routes;
    assert all[0] == route && all[1..] == routes;
    assert FlattenRoutes(all) == FlattenDirections(route, route.directions) + FlattenRoutes(routes);
  }

  lemma {:induction false} NoEntries(directions: seq<Direction>)
    requires forall j :: 0 <= j < |directions| ==> |directions[j].buses| == 0
    ensures RouteEntries(directions) == 0
  {
    if |directions| > 0 {
      NoEntries(directions[1..]);
    }
  }
}
