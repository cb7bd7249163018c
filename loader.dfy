/**
 * Loading the road network: every way of the Overpass answer that has a
 * geometry and at least two points inside the search radius becomes one road
 * on the road layer, and its consecutive points become graph segments.
 * The radius test and the segment length are parameters.
 */
module Loader {
  import opened Wrappers
  import opened Speed
  import opened Geometry
  import opened RoadGraph
  import opened Blocking

  /** One element of the Overpass answer: way id, tags if any, geometry if any. */
  datatype Way = Way(id: int, tags: Option<Tags>, geometry: Option<seq<Coord>>)

  /** A way the loader keeps, with the points of it that lie inside the radius. */
  datatype Accept = Accept(way: Way, pts: seq<Coord>)

  /** The tags a road gets (`el.tags || {}`). */
  function RoadTags(w: Way): Tags
  {
    w.tags.GetOr(NoTags)
  }

  /** `filter(insideRadius)`: the points of `pts` inside the radius, in their order. */
  function KeepInside(pts: seq<Coord>, inside: Coord -> bool): (r: seq<Coord>)
    ensures |r| <= |pts|
    ensures forall c :: c in r <==> c in pts && inside(c)
  {
    if |pts| == 0 then []
    else (if inside(pts[0]) then [pts[0]] else []) + KeepInside(pts[1..], inside)
  }

  /** Filtering a concatenation filters each part, in order. */
  lemma {:induction false} KeepInsideAppend(a: seq<Coord>, b: seq<Coord>, inside: Coord -> bool)
    ensures KeepInside(a + b, inside) == KeepInside(a, inside) + KeepInside(b, inside)
    decreases |a|
  {
    if |a| == 0 {
      assert a + b == b;
    } else {
      assert (a + b)[1..] == a[1..] + b;
      KeepInsideAppend(a[1..], b, inside);
    }
  }

  /**
   * A polyline whose points all lie inside the radius is kept whole, repeated
   * points (a closed way returning to its first node) included.
   */
  lemma {:induction false} KeepInsideAll(pts: seq<Coord>, inside: Coord -> bool)
    requires forall i :: 0 <= i < |pts| ==> inside(pts[i])
    ensures KeepInside(pts, inside) == pts
    decreases |pts|
  {
    if |pts| > 0 {
      KeepInsideAll(pts[1..], inside);
      assert [pts[0]] + pts[1..] == pts;
    }
  }

  /** The polyline a way contributes, or `None` when the loader skips the way. */
  function RoadPoints(w: Way, inside: Coord -> bool): Option<seq<Coord>>
  {
    match w.geometry
    case None => None
    case Some(g) =>
      var pts := KeepInside(g, inside);
      if |pts| < 2 then None else Some(pts)
  }

  /** The ways that become roads, in answer order, with their polylines. */
  function Accepted(ways: seq<Way>, inside: Coord -> bool): seq<Accept>
  {
    if |ways| == 0 then []
    else
      var w := ways[|ways| - 1];
      Accepted(ways[..|ways| - 1], inside) +
        (match RoadPoints(w, inside) case None => [] case Some(pts) => [Accept(w, pts)])
  }

  /** The graph after building the roads `rs`, the `j`th over the polyline of `acc[j]`, in order. */
  function LoadAll(d: GraphData, rs: seq<Road>, acc: seq<Accept>, dist: (Coord, Coord) -> real): GraphData
    requires |rs| == |acc|
  {
    if |rs| == 0 then d
    else BuildRoad(LoadAll(d, rs[..|rs| - 1], acc[..|acc| - 1], dist), rs[|rs| - 1], acc[|acc| - 1].pts, dist, 0)
  }

  /**
   * A way is kept exactly when it has a geometry with at least two points
   * inside the radius; its polyline is then made of points of its geometry,
   * all inside the radius.
   */
  lemma {:induction false} RoadPointsSpec(w: Way, inside: Coord -> bool)
    ensures RoadPoints(w, inside).Some? <==> w.geometry.Some? && |KeepInside(w.geometry.value, inside)| >= 2
    ensures RoadPoints(w, inside).Some? ==>
      var pts := RoadPoints(w, inside).value;
      |pts| >= 2 && forall c :: c in pts ==> c in w.geometry.value && inside(c)
  {
  }

  /**
   * Every entry of the accepted list is a kept way of the answer with its
   * polyline, and every kept way has an entry (order and multiplicity:
   * `AcceptedAppend` and `AcceptedOne`).
   */
  lemma {:induction false} AcceptedSpec(ways: seq<Way>, inside: Coord -> bool)
    ensures var acc := Accepted(ways, inside);
      && |acc| <= |ways|
      && (forall j :: 0 <= j < |acc| ==> acc[j].way in ways && RoadPoints(acc[j].way, inside) == Some(acc[j].pts))
      && (forall w :: w in ways && RoadPoints(w, inside).Some? ==> exists j :: 0 <= j < |acc| && acc[j].way == w)
  {
    if |ways| > 0 {
      var init := ways[..|ways| - 1];
      var w := ways[|ways| - 1];
      AcceptedSpec(init, inside);
      var acc, acc0 := Accepted(ways, inside), Accepted(init, inside);
      assert acc[..|acc0|] == acc0;
      forall j | 0 <= j < |acc| ensures acc[j].way in ways && RoadPoints(acc[j].way, inside) == Some(acc[j].pts) {
        if j < |acc0| {
          assert acc[j] == acc0[j];
        }
      }
      forall w' | w' in ways && RoadPoints(w', inside).Some? ensures exists j :: 0 <= j < |acc| && acc[j].way == w' {
        if w' == w {
          assert acc[|acc| - 1].way == w;
        } else {
          assert w' in init;
          var j :| 0 <= j < |acc0| && acc0[j].way == w';
          assert acc[j] == acc0[j];
        }
      }
    }
  }

  /** The accepted list of a concatenation is the two lists one after the other. */
  lemma {:induction false} AcceptedAppend(a: seq<Way>, b: seq<Way>, inside: Coord -> bool)
    ensures Accepted(a + b, inside) == Accepted(a, inside) + Accepted(b, inside)
    decreases |b|
  {
    if |b| == 0 {
      assert a + b == a;
    } else {
      var n := |b| - 1;
      assert (a + b)[..|a + b| - 1] == a + b[..n];
      assert (a + b)[|a + b| - 1] == b[n];
      AcceptedAppend(a, b[..n], inside);
    }
  }

  /** One way contributes one entry when it is kept and none when it is skipped. */
  lemma {:induction false} AcceptedOne(w: Way, inside: Coord -> bool)
    ensures RoadPoints(w, inside).None? ==> Accepted([w], inside) == []
    ensures RoadPoints(w, inside).Some? ==> Accepted([w], inside) == [Accept(w, RoadPoints(w, inside).value)]
  {
    assert [w][..0] == [];
  }

  /** A segment present in a graph stays present in any graph that extends it. */
  lemma {:induction false} ExtendsKeepsSegment(d: GraphData, r: GraphData, road: Road, pts: seq<Coord>, dist: (Coord, Coord) -> real, s: int)
    requires 0 <= s < |pts| - 1
    requires Extends(d, r) && SegmentPresent(d, road, pts, dist, s)
    ensures SegmentPresent(r, road, pts, dist, s)
  {
    var a, b := NodeKey(pts[s]), NodeKey(pts[s + 1]);
    PrefixMember(d.nodes[a].edges, r.nodes[a].edges);
    PrefixMember(d.nodes[b].edges, r.nodes[b].edges);
  }

  /**
   * After loading, every segment of every loaded road is in the graph, with
   * the edges its one-way mode calls for.
   */
  lemma {:induction false} LoadedSegmentsPresent(d: GraphData, rs: seq<Road>, acc: seq<Accept>, dist: (Coord, Coord) -> real, j: int, s: int)
    requires |rs| == |acc| && 0 <= j < |rs| && 0 <= s < |acc[j].pts| - 1
    ensures SegmentPresent(LoadAll(d, rs, acc, dist), rs[j], acc[j].pts, dist, s)
    decreases |rs|
  {
    var n := |rs| - 1;
    var p := LoadAll(d, rs[..n], acc[..n], dist);
    if j == n {
      BuildEmitsSegment(p, rs[n], acc[n].pts, dist, 0, s);
    } else {
      LoadedSegmentsPresent(d, rs[..n], acc[..n], dist, j, s);
      BuildKeepsExisting(p, rs[n], acc[n].pts, dist, 0);
      ExtendsKeepsSegment(p, LoadAll(d, rs, acc, dist), rs[j], acc[j].pts, dist, s);
    }
  }

  /**
   * Two roads built one after the other whose points round to the same key
   * meet at one node, which holds the edges both roads give it.
   */
  lemma {:induction false} SharedNode(d: GraphData, r1: Road, pts1: seq<Coord>, r2: Road, pts2: seq<Coord>,
                                      dist: (Coord, Coord) -> real, s1: int, s2: int)
    requires 0 <= s1 < |pts1| - 1 && 0 <= s2 < |pts2| - 1
    requires NodeKey(pts1[s1]) == NodeKey(pts2[s2])
    ensures var g, k := BuildRoad(BuildRoad(d, r1, pts1, dist, 0), r2, pts2, dist, 0), NodeKey(pts1[s1]);
      && k in g.nodes
      && SegmentPresent(g, r1, pts1, dist, s1) && SegmentPresent(g, r2, pts2, dist, s2)
      && (r1.oneway != Backward ==> Edge(NodeKey(pts1[s1 + 1]), dist(pts1[s1], pts1[s1 + 1]), r1) in g.nodes[k].edges)
      && (r2.oneway != Backward ==> Edge(NodeKey(pts2[s2 + 1]), dist(pts2[s2], pts2[s2 + 1]), r2) in g.nodes[k].edges)
  {
    var g1 := BuildRoad(d, r1, pts1, dist, 0);
    BuildEmitsSegment(d, r1, pts1, dist, 0, s1);
    BuildKeepsExisting(g1, r2, pts2, dist, 0);
    ExtendsKeepsSegment(g1, BuildRoad(g1, r2, pts2, dist, 0), r1, pts1, dist, s1);
    BuildEmitsSegment(g1, r2, pts2, dist, 0, s2);
  }

  /**
   * The roads `rs` were made, in order, from the accepted ways `acc`: each
   * carries its way's id and tags, and the one-way mode parsed from them.
   */
  predicate MadeFrom(rs: seq<Road>, acc: seq<Accept>)
  {
    && |rs| == |acc|
    && forall j :: 0 <= j < |rs| ==>
         rs[j].osmId == acc[j].way.id && rs[j].tags == RoadTags(acc[j].way) && rs[j].oneway == ParseOneWay(rs[j].tags.oneway)
  }

  /** Loading one more road builds its polyline into the graph loaded so far. */
  lemma {:induction false} LoadAllSnoc(d: GraphData, rs: seq<Road>, acc: seq<Accept>, r: Road, a: Accept, dist: (Coord, Coord) -> real)
    requires |rs| == |acc|
    ensures LoadAll(d, rs + [r], acc + [a], dist) == BuildRoad(LoadAll(d, rs, acc, dist), r, a.pts, dist, 0)
  {
    assert (rs + [r])[..|rs|] == rs;
    assert (acc + [a])[..|acc|] == acc;
  }

  /** A road made from one more accepted way extends the correspondence. */
  lemma {:induction false} MadeFromSnoc(rs: seq<Road>, acc: seq<Accept>, r: Road, a: Accept)
    requires MadeFrom(rs, acc)
    requires r.osmId == a.way.id && r.tags == RoadTags(a.way) && r.oneway == ParseOneWay(r.tags.oneway)
    ensures MadeFrom(rs + [r], acc + [a])
  {
  }

  /** One more way of the answer adds at most one entry to the accepted list. */
  lemma {:induction false} AcceptedStep(ways: seq<Way>, inside: Coord -> bool, i: int)
    requires 0 <= i < |ways|
    ensures Accepted(ways[..i + 1], inside) ==
      Accepted(ways[..i], inside) +
        (match RoadPoints(ways[i], inside) case None => [] case Some(pts) => [Accept(ways[i], pts)])
  {
    assert ways[..i + 1][..i] == ways[..i];
  }

  /**
   * The way about to be loaded has an id no road on the layer has yet: the
   * roads loaded before came from earlier ways, and the roads there already
   * have ids of no way in the answer.
   */
  lemma {:induction false} NewIdNotLoaded(old0: seq<Road>, added: seq<Road>, ways: seq<Way>, inside: Coord -> bool, i: int)
    requires 0 <= i < |ways|
    requires forall k, j :: 0 <= k < j < |ways| ==> ways[k].id != ways[j].id
    requires forall k, m :: 0 <= k < |ways| && 0 <= m < |old0| ==> old0[m].osmId != ways[k].id
    requires MadeFrom(added, Accepted(ways[..i], inside))
    ensures forall m :: 0 <= m < |old0 + added| ==> (old0 + added)[m].osmId != ways[i].id
  {
    var n := |old0|;
    var rs := old0 + added;
    var acc := Accepted(ways[..i], inside);
    AcceptedSpec(ways[..i], inside);
    forall m | 0 <= m < |rs| ensures rs[m].osmId != ways[i].id {
      if m < n {
        assert rs[m] == old0[m];
      } else {
        assert rs[m] == added[m - n];
        assert acc[m - n].way in ways[..i];
        var k :| 0 <= k < i && ways[..i][k] == acc[m - n].way;
        assert ways[k] == ways[..i][k];
      }
    }
  }

  /** An id no road of the layer carries is not on the layer. */
  lemma {:induction false} NotOnLayer(layer: Registry, id: int)
    requires forall m :: 0 <= m < |layer.roads| ==> layer.roads[m].osmId != id
    ensures !HasRoad(layer.View().flags, id)
  {
    forall m | 0 <= m < |layer.roads| ensures layer.View().flags[m].osmId != id {
      assert layer.View().flags[m].osmId == layer.roads[m].osmId;
    }
  }

  /**
   * The roads made from the ways of the answer have ids that are not in the
   * set: every id in it belongs to a road that was on the layer before, and
   * no way of the answer has the id of such a road.
   */
  lemma {:induction false} NewIdsNotBlocked(v0: LayerView, ways: seq<Way>, inside: Coord -> bool, rs: seq<Road>)
    requires OnlyLoaded(v0)
    requires forall i :: 0 <= i < |ways| ==> !HasRoad(v0.flags, ways[i].id)
    requires MadeFrom(rs, Accepted(ways, inside))
    ensures forall m :: 0 <= m < |rs| ==> rs[m].osmId !in v0.blocked
  {
    var acc := Accepted(ways, inside);
    AcceptedSpec(ways, inside);
    forall m | 0 <= m < |rs| ensures rs[m].osmId !in v0.blocked {
      assert acc[m].way in ways;
      var i :| 0 <= i < |ways| && ways[i] == acc[m].way;
    }
  }

  /**
   * After loading, the appended roads are unblocked: their ids are not in
   * the set, which has not changed, and the registry is consistent.
   */
  lemma {:induction false} AppendedUnblocked(layer: Registry, v0: LayerView, ways: seq<Way>, inside: Coord -> bool,
                          old0: seq<Road>, added: seq<Road>)
    requires layer.Valid() && OnlyLoaded(v0) && layer.blocked == v0.blocked
    requires forall i :: 0 <= i < |ways| ==> !HasRoad(v0.flags, ways[i].id)
    requires MadeFrom(added, Accepted(ways, inside))
    requires layer.roads == old0 + added
    ensures forall m :: |old0| <= m < |layer.roads| ==> !layer.roads[m].isBlocked
  {
    NewIdsNotBlocked(v0, ways, inside, added);
    forall m | |old0| <= m < |layer.roads| ensures !layer.roads[m].isBlocked {
      UnblockedAt(layer, m);
    }
  }

  /** In a consistent registry a road whose id is not in the set is not blocked. */
  lemma {:induction false} UnblockedAt(layer: Registry, m: nat)
    requires layer.Valid() && m < |layer.roads| && layer.roads[m].osmId !in layer.blocked
    ensures !layer.roads[m].isBlocked
  {
    assert layer.View().flags[m] == RoadFlag(layer.roads[m].osmId, layer.roads[m].isBlocked);
  }

  /**
   * The body of the loader's `forEach` for one way: skip it, or create its
   * road, add the road to the layer and build its segments.
   */
  method LoadWay(graph: Graph, layer: Registry, w: Way, inside: Coord -> bool, dist: (Coord, Coord) -> real)
    returns (added: Option<Road>)
    requires graph.Valid() && layer.Valid() && !HasRoad(layer.View().flags, w.id)
    requires forall a, b :: dist(a, b) >= 0.0
    modifies graph, layer
    ensures graph.Valid() && layer.Valid()
    ensures layer.blocked == old(layer.blocked) && layer.State() == old(layer.State())
    ensures added.None? <==> RoadPoints(w, inside).None?
    ensures added.None? ==> graph.Data() == old(graph.Data()) && layer.roads == old(layer.roads)
    ensures added.Some? ==>
      var road := added.value;
      && fresh(road) && road.osmId == w.id && road.tags == RoadTags(w) && !road.isBlocked
      && road.oneway == ParseOneWay(road.tags.oneway)
      && layer.roads == old(layer.roads) + [road]
      && graph.Data() == BuildRoad(old(graph.Data()), road, RoadPoints(w, inside).value, dist, 0)
  {
    var pts := RoadPoints(w, inside);
    if pts.None? {
      return None;
    }
    var road := new Road(w.id, RoadTags(w));
    layer.AddToLayer(road);
    graph.AddRoad(road, pts.value, dist);
    added := Some(road);
  }

  /**
   * The graph value after one more way: a skipped way leaves the accepted
   * list and the graph as they were; a kept way adds one road, made from it,
   * whose polyline is built into the graph.
   */
  lemma {:induction false} LoadStep(start: GraphData, added: seq<Road>, ways: seq<Way>, inside: Coord -> bool, dist: (Coord, Coord) -> real,
                 i: nat, g0: GraphData, road: Option<Road>, g1: GraphData)
    requires i < |ways|
    requires MadeFrom(added, Accepted(ways[..i], inside))
    requires g0 == LoadAll(start, added, Accepted(ways[..i], inside), dist)
    requires road.None? <==> RoadPoints(ways[i], inside).None?
    requires road.None? ==> g1 == g0
    requires road.Some? ==>
      && road.value.osmId == ways[i].id && road.value.tags == RoadTags(ways[i])
      && road.value.oneway == ParseOneWay(road.value.tags.oneway)
      && g1 == BuildRoad(g0, road.value, RoadPoints(ways[i], inside).value, dist, 0)
    ensures var added' := if road.Some? then added + [road.value] else added;
      && MadeFrom(added', Accepted(ways[..i + 1], inside))
      && g1 == LoadAll(start, added', Accepted(ways[..i + 1], inside), dist)
  {
    ghost var acc := Accepted(ways[..i], inside);
    AcceptedStep(ways, inside, i);
    if road.Some? {
      ghost var a := Accept(ways[i], RoadPoints(ways[i], inside).value);
      assert Accepted(ways[..i + 1], inside) == acc + [a];
      LoadAllSnoc(start, added, acc, road.value, a, dist);
      MadeFromSnoc(added, acc, road.value, a);
    } else {
      assert Accepted(ways[..i + 1], inside) == acc;
    }
  }

  /**
   * The layer after one more road: the roads it had before loading, then
   * the new ones. Proved apart so that `LoadNext`, whose context holds the
   * heap, only has to use it.
   */
  lemma {:induction false} SnocAssoc(old0: seq<Road>, added: seq<Road>, r: Road)
    ensures (old0 + added) + [r] == old0 + (added + [r])
  {
  }

  /**
   * One turn of the loader's loop: load way `i`, keeping the correspondence
   * between the roads appended so far and the ways accepted so far.
   */
  method LoadNext(graph: Graph, layer: Registry, ways: seq<Way>, inside: Coord -> bool, dist: (Coord, Coord) -> real,
                  i: nat, ghost old0: seq<Road>, ghost added: seq<Road>, ghost start: GraphData)
    returns (ghost added': seq<Road>, ghost newRoad: Option<Road>)
    requires i < |ways| && graph.Valid() && layer.Valid()
    requires forall a, b :: dist(a, b) >= 0.0
    requires forall k, j :: 0 <= k < j < |ways| ==> ways[k].id != ways[j].id
    requires forall k, m :: 0 <= k < |ways| && 0 <= m < |old0| ==> old0[m].osmId != ways[k].id
    requires layer.roads == old0 + added
    requires MadeFrom(added, Accepted(ways[..i], inside))
    requires graph.Data() == LoadAll(start, added, Accepted(ways[..i], inside), dist)
    modifies graph, layer
    ensures graph.Valid() && layer.Valid()
    ensures layer.blocked == old(layer.blocked) && layer.State() == old(layer.State())
    ensures layer.roads == old0 + added'
    ensures MadeFrom(added', Accepted(ways[..i + 1], inside))
    ensures added' == if newRoad.Some? then added + [newRoad.value] else added
    ensures newRoad.Some? ==> fresh(newRoad.value) && !newRoad.value.isBlocked
    ensures graph.Data() == LoadAll(start, added', Accepted(ways[..i + 1], inside), dist)
  {
    newRoad := None;
    NewIdNotLoaded(old0, added, ways, inside, i);
    NotOnLayer(layer, ways[i].id);
    ghost var g0 := graph.Data();
    var road := LoadWay(graph, layer, ways[i], inside, dist);
    if road.Some? {
      added' := added + [road.value];
      newRoad := road;
      SnocAssoc(old0, added, road.value);
    } else {
      added' := added;
    }
    LoadStep(start, added, ways, inside, dist, i, g0, road, graph.Data());
  }

  /**
   * `loadOSMRoads` after the answer has arrived: every kept way, in answer
   * order, becomes an unblocked road appended to the layer, and the
   * graph is the old one with those roads' segments built in.
   */
  method LoadOSMRoads(graph: Graph, layer: Registry, ways: seq<Way>, inside: Coord -> bool, dist: (Coord, Coord) -> real)
    requires graph.Valid() && layer.Valid()
    requires forall a, b :: dist(a, b) >= 0.0
    requires forall i, j :: 0 <= i < j < |ways| ==> ways[i].id != ways[j].id
    requires forall i :: 0 <= i < |ways| ==> !HasRoad(layer.View().flags, ways[i].id)
    modifies graph, layer
    ensures graph.Valid() && layer.Valid()
    ensures layer.blocked == old(layer.blocked) && layer.State() == old(layer.State())
    ensures |old(layer.roads)| <= |layer.roads| && layer.roads[..|old(layer.roads)|] == old(layer.roads)
    ensures forall m :: |old(layer.roads)| <= m < |layer.roads| ==> !layer.roads[m].isBlocked
    ensures var rs := layer.roads[|old(layer.roads)|..];
      && MadeFrom(rs, Accepted(ways, inside))
      && graph.Data() == LoadAll(old(graph.Data()), rs, Accepted(ways, inside), dist)
  {
    ghost var old0 := layer.roads;
    ghost var v0 := layer.View();
    assert OnlyLoaded(v0);
    ghost var start := graph.Data();
    forall k, m | 0 <= k < |ways| && 0 <= m < |old0| ensures old0[m].osmId != ways[k].id {
      assert layer.View().flags[m].osmId == old0[m].osmId;
    }
    ghost var added: seq<Road> := [];
    var i := 0;
    while i < |ways|
      invariant i <= |ways|
      invariant graph.Valid() && layer.Valid()
      invariant layer.blocked == old(layer.blocked) && layer.State() == old(layer.State())
      invariant layer.roads == old0 + added
      invariant MadeFrom(added, Accepted(ways[..i], inside))
      invariant graph.Data() == LoadAll(start, added, Accepted(ways[..i], inside), dist)
    {
      ghost var before := added;
      ghost var newRoad;
      added, newRoad := LoadNext(graph, layer, ways, inside, dist, i, old0, added, start);
      i := i + 1;
    }
    assert ways[..i] == ways;
    assert layer.roads[|old0|..] == added;
    AppendedUnblocked(layer, v0, ways, inside, old0, added);
  }
}
