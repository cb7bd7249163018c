/**
 * `calculateRouteInfo`: the length and travel time of a path of node keys.
 * For each consecutive pair it takes the first edge of the origin whose
 * target is the next key, skips the pair when there is none, and adds the
 * edge's length and minutes. A time that is not a finite number (a zero
 * speed) is `None` and stays `None` whatever is added to it.
 */
module Metrics {
  import opened Wrappers
  import opened Speed
  import opened Geometry
  import opened RoadGraph
  import opened Search

  /** The `{ distanceKm, timeMin }` object. */
  datatype RouteInfo = RouteInfo(distanceKm: real, timeMin: Option<real>)

  /** `node.edges.find((e) => e.to === to)`. */
  function FirstEdgeTo(edges: seq<Edge>, to: Key): (r: Option<Edge>)
    ensures r.None? <==> forall e :: e in edges ==> e.to != to
    ensures r.Some? ==>
      exists i :: 0 <= i < |edges| && edges[i] == r.value && r.value.to == to &&
        forall j :: 0 <= j < i ==> edges[j].to != to
  {
    if |edges| == 0 then None
    else if edges[0].to == to then Some(edges[0])
    else
      var r := FirstEdgeTo(edges[1..], to);
      assert forall e :: e in edges[1..] ==> e in edges;
      assert r.Some? ==> exists i :: 1 <= i < |edges| && edges[i] == r.value && forall j :: 1 <= j < i ==> edges[j].to != to;
      r
  }

  /** JavaScript addition of a finite time to a running total that may already be infinite or NaN. */
  function AddMinutes(total: Option<real>, t: Option<real>): Option<real>
  {
    if total.Some? && t.Some? then Some(total.value + t.value) else None
  }

  /** The number of consecutive pairs of `path` (`path.length - 1` iterations, none for an empty path). */
  function Pairs(path: seq<Key>): nat
  {
    if |path| == 0 then 0 else |path| - 1
  }

  /** The origin of every pair is a node (`calculateRouteInfo` reads its edge list unguarded). */
  ghost predicate OriginsKnown(nodes: map<Key, Node>, path: seq<Key>)
  {
    forall i :: 0 <= i < Pairs(path) ==> path[i] in nodes
  }

  /** The totals after the first `n` pairs of `path`. */
  function RouteTotals(nodes: map<Key, Node>, path: seq<Key>, mode: Mode, n: nat): RouteInfo
    requires n <= Pairs(path) && OriginsKnown(nodes, path)
  {
    if n == 0 then RouteInfo(0.0, Some(0.0))
    else
      var acc := RouteTotals(nodes, path, mode, n - 1);
      match FirstEdgeTo(nodes[path[n - 1]].edges, path[n])
      case None => acc
      case Some(e) => RouteInfo(acc.distanceKm + e.distanceKm, AddMinutes(acc.timeMin, EdgeMinutes(e, mode)))
  }

  /** `calculateRouteInfo(path, mode)`. */
  method CalculateRouteInfo(graph: Graph, path: seq<Key>, mode: Mode) returns (info: RouteInfo)
    requires OriginsKnown(graph.nodes, path)
    ensures info == RouteTotals(graph.nodes, path, mode, Pairs(path))
  {
    var nodes := graph.nodes;
    info := RouteInfo(0.0, Some(0.0));
    var i := 0;
    while i + 1 < |path|
      invariant i <= Pairs(path)
      invariant info == RouteTotals(nodes, path, mode, i)
    {
      var edge := FirstEdgeTo(nodes[path[i]].edges, path[i + 1]);
      if edge.Some? {
        var e := edge.value;
        var t := TravelMinutes(e.distanceKm, GetSpeed(e.road.tags, mode));
        info := RouteInfo(info.distanceKm + e.distanceKm, AddMinutes(info.timeMin, t));
      }
      i := i + 1;
    }
  }

  /** A path of zero or one key gives `{0, 0}`. */
  lemma {:induction false} ShortPathZero(nodes: map<Key, Node>, path: seq<Key>, mode: Mode)
    requires |path| <= 1
    ensures OriginsKnown(nodes, path) && RouteTotals(nodes, path, mode, Pairs(path)) == RouteInfo(0.0, Some(0.0))
  {
  }

  /**
   * With non-negative edge lengths the distance never goes negative, and
   * with only positive speeds the time stays a finite, non-negative number.
   */
  lemma {:induction false} TotalsNonNegative(nodes: map<Key, Node>, path: seq<Key>, mode: Mode, n: nat)
    requires n <= Pairs(path) && OriginsKnown(nodes, path) && EdgesOk(nodes)
    ensures RouteTotals(nodes, path, mode, n).distanceKm >= 0.0
    ensures (forall k, e {:trigger e in nodes[k].edges} :: k in nodes && e in nodes[k].edges ==> GetSpeed(e.road.tags, mode) > 0) ==>
      RouteTotals(nodes, path, mode, n).timeMin.Some? && RouteTotals(nodes, path, mode, n).timeMin.value >= 0.0
  {
    if n > 0 {
      TotalsNonNegative(nodes, path, mode, n - 1);
      var edge := FirstEdgeTo(nodes[path[n - 1]].edges, path[n]);
      if edge.Some? {
        assert edge.value in nodes[path[n - 1]].edges;
      }
    }
  }

  /**
   * Along a route over usable edges no pair is skipped: each origin has an
   * edge to the next key, so every pair contributes to the totals.
   */
  lemma {:induction false} RouteHasEdges(nodes: map<Key, Node>, path: seq<Key>, start: Key, goal: Key, mode: Mode, blocked: set<Road>)
    requires IsRoute(nodes, path, start, goal, mode, blocked)
    ensures OriginsKnown(nodes, path)
    ensures forall i :: 0 <= i < |path| - 1 ==> FirstEdgeTo(nodes[path[i]].edges, path[i + 1]).Some?
  {
    forall i | 0 <= i < |path| - 1 ensures FirstEdgeTo(nodes[path[i]].edges, path[i + 1]).Some? {
      assert Link(nodes, path[i], path[i + 1], mode, blocked);
      var e :| e in nodes[path[i]].edges && e.to == path[i + 1] && Usable(e, mode, blocked);
    }
  }

  /**
   * Three nodes joined by two 1 km residential edges: a car needs 2 km and
   * 4 minutes (30 km/h).
   */
  lemma {:induction false} ResidentialExample(road: Road)
    requires road.tags == Tags(Some("residential"), None, None)
    ensures var a, b, c := Key(0, 0), Key(0, 1), Key(0, 2);
      var nodes := map[a := Node(Coord(0.0, 0.0), [Edge(b, 1.0, road)]),
                       b := Node(Coord(0.0, 0.000001), [Edge(c, 1.0, road)]),
                       c := Node(Coord(0.0, 0.000002), [])];
      OriginsKnown(nodes, [a, b, c]) && RouteTotals(nodes, [a, b, c], Car, 2) == RouteInfo(2.0, Some(4.0))
  {
    var a, b, c := Key(0, 0), Key(0, 1), Key(0, 2);
    var nodes := map[a := Node(Coord(0.0, 0.0), [Edge(b, 1.0, road)]),
                     b := Node(Coord(0.0, 0.000001), [Edge(c, 1.0, road)]),
                     c := Node(Coord(0.0, 0.000002), [])];
    assert GetSpeed(road.tags, Car) == 30;
    assert FirstEdgeTo(nodes[a].edges, b) == Some(Edge(b, 1.0, road));
    assert FirstEdgeTo(nodes[b].edges, c) == Some(Edge(c, 1.0, road));
    assert RouteTotals(nodes, [a, b, c], Car, 1) == RouteInfo(1.0, Some(2.0));
  }

  /**
   * The first edge to the next key is used whatever its road: with a
   * blocked 1 km road listed before an open 2 km one, the route over the
   * open road is reported as 1 km.
   */
  lemma {:induction false} FirstEdgeIgnoresBlocking(closed: Road, open: Road)
    requires closed != open
    requires closed.tags == Tags(Some("residential"), None, None) && open.tags == closed.tags
    ensures var a, b := Key(0, 0), Key(0, 1);
      var nodes := map[a := Node(Coord(0.0, 0.0), [Edge(b, 1.0, closed), Edge(b, 2.0, open)]),
                       b := Node(Coord(0.0, 0.000001), [])];
      && IsRoute(nodes, [a, b], a, b, Car, {closed})
      && OriginsKnown(nodes, [a, b])
      && RouteTotals(nodes, [a, b], Car, 1).distanceKm == 1.0
  {
    var a, b := Key(0, 0), Key(0, 1);
    var nodes := map[a := Node(Coord(0.0, 0.0), [Edge(b, 1.0, closed), Edge(b, 2.0, open)]),
                     b := Node(Coord(0.0, 0.000001), [])];
    assert Edge(b, 2.0, open) in nodes[a].edges;
    assert Link(nodes, a, b, Car, {closed});
  }
}
