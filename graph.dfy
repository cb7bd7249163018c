/**
 * The road graph: shared road records, nodes keyed by rounded coordinate,
 * directed edges owned by their origin node, and the builder that turns one
 * road's geometry into edges according to its one-way restriction.
 */
module RoadGraph {
  import opened Wrappers
  import opened Speed
  import opened Geometry

  /**
   * One loaded OSM way (a polyline on the road layer). Every edge built from
   * the way refers to this one record, so blocking it affects all its edges.
   */
  class Road {
    const osmId: int
    const tags: Tags
    const oneway: OneWay
    var isBlocked: bool

    constructor (osmId: int, tags: Tags)
      ensures this.osmId == osmId && this.tags == tags
      ensures oneway == ParseOneWay(tags.oneway) && !isBlocked
    {
      this.osmId := osmId;
      this.tags := tags;
      this.oneway := ParseOneWay(tags.oneway);
      this.isBlocked := false;
    }
  }

  /** A directed edge, stored in the edge list of its origin node. */
  datatype Edge = Edge(to: Key, distanceKm: real, road: Road)

  /** A node: the coordinate it was first seen at and its outgoing edges in insertion order. */
  datatype Node = Node(pos: Coord, edges: seq<Edge>)

  /** The graph as a value: the node map and the order in which its keys were inserted. */
  datatype GraphData = GraphData(nodes: map<Key, Node>, order: seq<Key>)

  /**
   * The graph's invariant: every edge leads to a node of the graph, refers to
   * one of `roads`, and has a non-negative length; `order` lists every key
   * exactly once.
   */
  ghost predicate WellFormed(d: GraphData, roads: set<Road>)
  {
    EdgesClosed(d.nodes, roads) && OrderListsKeys(d)
  }

  /** Every edge leads to a node of the map, refers to one of `roads` and has a non-negative length. */
  ghost predicate EdgesClosed(nodes: map<Key, Node>, roads: set<Road>)
  {
    forall k, e {:trigger e in nodes[k].edges} :: k in nodes && e in nodes[k].edges ==> e.to in nodes && e.road in roads && e.distanceKm >= 0.0
  }

  /** No key occurs twice. */
  predicate Distinct(s: seq<Key>)
  {
    forall i, j :: 0 <= i < j < |s| ==> s[i] != s[j]
  }

  /** `order` lists every key of the map exactly once. */
  ghost predicate OrderListsKeys(d: GraphData)
  {
    (forall k :: k in d.nodes <==> k in d.order) && Distinct(d.order)
  }

  /** `addNode` on the graph value: a node is created only for a key not seen before. */
  function InsertNode(d: GraphData, c: Coord): (r: GraphData)
    ensures r.nodes.Keys == d.nodes.Keys + {NodeKey(c)}
  {
    var k := NodeKey(c);
    if k in d.nodes then d else GraphData(d.nodes[k := Node(c, [])], d.order + [k])
  }

  /** `addEdge` on the graph value: push `e` onto the edge list of `from`. */
  function AppendEdge(d: GraphData, from: Key, e: Edge): (r: GraphData)
    requires from in d.nodes
    ensures r.nodes.Keys == d.nodes.Keys
  {
    GraphData(d.nodes[from := Node(d.nodes[from].pos, d.nodes[from].edges + [e])], d.order)
  }

  /** One pass of the build loop: both endpoints become nodes, then edges follow the road's one-way mode. */
  function EmitSegment(d: GraphData, a: Coord, b: Coord, distanceKm: real, road: Road): GraphData
  {
    var d1 := InsertNode(InsertNode(d, a), b);
    var k1, k2 := NodeKey(a), NodeKey(b);
    match road.oneway
    case Forward => AppendEdge(d1, k1, Edge(k2, distanceKm, road))
    case Backward => AppendEdge(d1, k2, Edge(k1, distanceKm, road))
    case No => AppendEdge(AppendEdge(d1, k1, Edge(k2, distanceKm, road)), k2, Edge(k1, distanceKm, road))
  }

  /**
   * The graph after the build loop, started from `d` at index `i`, has
   * processed the segments `pts[i]..pts[i+1]`, `pts[i+1]..pts[i+2]`, and so on
   * to the end of `pts`, in that order.
   */
  function BuildRoad(d: GraphData, road: Road, pts: seq<Coord>, dist: (Coord, Coord) -> real, i: nat): GraphData
    decreases |pts| - i
  {
    if i + 1 >= |pts| then d
    else BuildRoad(EmitSegment(d, pts[i], pts[i + 1], dist(pts[i], pts[i + 1]), road), road, pts, dist, i + 1)
  }

  /** One iteration of the build loop: the first remaining segment, then the rest. */
  lemma {:induction false} BuildRoadStep(d: GraphData, road: Road, pts: seq<Coord>, dist: (Coord, Coord) -> real, i: nat)
    requires i + 1 < |pts|
    ensures BuildRoad(d, road, pts, dist, i)
         == BuildRoad(EmitSegment(d, pts[i], pts[i + 1], dist(pts[i], pts[i + 1]), road), road, pts, dist, i + 1)
  {
  }

  /** `e`, stored at node `k`, is an edge that the segment from `a` to `b` of `road` emits. */
  ghost predicate Emitted(road: Road, a: Coord, b: Coord, distanceKm: real, k: Key, e: Edge)
  {
    && e.road == road && e.distanceKm == distanceKm
    && ((road.oneway != Backward && k == NodeKey(a) && e.to == NodeKey(b))
        || (road.oneway != Forward && k == NodeKey(b) && e.to == NodeKey(a)))
  }

  /** `e`, stored at node `k`, is emitted by segment `j` of `pts` (from `pts[j]` to `pts[j + 1]`). */
  ghost predicate EmittedAt(road: Road, pts: seq<Coord>, dist: (Coord, Coord) -> real, j: int, k: Key, e: Edge)
  {
    0 <= j < |pts| - 1 && Emitted(road, pts[j], pts[j + 1], dist(pts[j], pts[j + 1]), k, e)
  }

  /** `e`, stored at node `k`, is emitted by some segment of `pts` from index `i` on. */
  ghost predicate EmittedFrom(road: Road, pts: seq<Coord>, dist: (Coord, Coord) -> real, i: nat, k: Key, e: Edge)
  {
    exists j :: i <= j && EmittedAt(road, pts, dist, j, k, e)
  }

  /**
   * Both endpoints of segment `j` of `pts` are nodes of `r`, and `r` holds the
   * edges that segment emits: a->b unless the road is backward-only, b->a
   * unless it is forward-only, each with the segment's length and the road.
   */
  ghost predicate SegmentPresent(r: GraphData, road: Road, pts: seq<Coord>, dist: (Coord, Coord) -> real, j: int)
    requires 0 <= j < |pts| - 1
  {
    var a, b := pts[j], pts[j + 1];
    && NodeKey(a) in r.nodes && NodeKey(b) in r.nodes
    && (road.oneway != Backward ==> Edge(NodeKey(b), dist(a, b), road) in r.nodes[NodeKey(a)].edges)
    && (road.oneway != Forward ==> Edge(NodeKey(a), dist(a, b), road) in r.nodes[NodeKey(b)].edges)
  }

  /** A second `addNode` for a coordinate with the same key returns the same graph: no new node, same edges. */
  lemma {:induction false} InsertNodeIdempotent(d: GraphData, c: Coord, c': Coord)
    requires NodeKey(c') == NodeKey(c)
    ensures InsertNode(InsertNode(d, c), c') == InsertNode(d, c)
    ensures |InsertNode(d, c).nodes| == if NodeKey(c) in d.nodes then |d.nodes| else |d.nodes| + 1
  {
    var k := NodeKey(c);
    if k !in d.nodes {
      assert InsertNode(d, c).nodes.Keys == d.nodes.Keys + {k};
    }
  }

  /**
   * The edges one segment adds, by the road's raw `oneway` tag: "yes"/"1"
   * add only a->b, "-1" only b->a, anything else both, with the same length
   * and the same road.
   */
  lemma {:induction false} SegmentEmission(d: GraphData, a: Coord, b: Coord, distanceKm: real, road: Road)
    requires road.oneway == ParseOneWay(road.tags.oneway)
    ensures var d1, r := InsertNode(InsertNode(d, a), b), EmitSegment(d, a, b, distanceKm, road);
      var k1, k2 := NodeKey(a), NodeKey(b);
      && r.nodes.Keys == d.nodes.Keys + {k1, k2}
      && (road.tags.oneway == Some("yes") || road.tags.oneway == Some("1") ==>
            && r.nodes[k1].edges == d1.nodes[k1].edges + [Edge(k2, distanceKm, road)]
            && forall k :: k in r.nodes && k != k1 ==> r.nodes[k] == d1.nodes[k])
      && (road.tags.oneway == Some("-1") ==>
            && r.nodes[k2].edges == d1.nodes[k2].edges + [Edge(k1, distanceKm, road)]
            && forall k :: k in r.nodes && k != k2 ==> r.nodes[k] == d1.nodes[k])
      && (road.tags.oneway !in {Some("yes"), Some("1"), Some("-1")} ==>
            && (k1 != k2 ==> r.nodes[k1].edges == d1.nodes[k1].edges + [Edge(k2, distanceKm, road)])
            && (k1 != k2 ==> r.nodes[k2].edges == d1.nodes[k2].edges + [Edge(k1, distanceKm, road)])
            && (k1 == k2 ==> r.nodes[k1].edges == d1.nodes[k1].edges + [Edge(k2, distanceKm, road), Edge(k1, distanceKm, road)])
            && forall k :: k in r.nodes && k != k1 && k != k2 ==> r.nodes[k] == d1.nodes[k])
  {
  }

  /** The edges that the segment from `a` to `b` of `road` appends to the list of node `k`, in order. */
  function SegmentEdgesAt(road: Road, a: Coord, b: Coord, distanceKm: real, k: Key): seq<Edge>
  {
    var k1, k2 := NodeKey(a), NodeKey(b);
    var e1, e2 := Edge(k2, distanceKm, road), Edge(k1, distanceKm, road);
    match road.oneway
    case Forward => if k == k1 then [e1] else []
    case Backward => if k == k2 then [e2] else []
    case No => (if k == k1 then [e1] else []) + (if k == k2 then [e2] else [])
  }

  /** `r` extends `d`: same or more nodes, positions kept, each old edge list a prefix of the new one. */
  ghost predicate Extends(d: GraphData, r: GraphData)
  {
    && d.nodes.Keys <= r.nodes.Keys
    && d.order <= r.order
    && forall k :: k in d.nodes ==> r.nodes[k].pos == d.nodes[k].pos && d.nodes[k].edges <= r.nodes[k].edges
  }

  /** Extension is transitive. */
  lemma {:induction false} ExtendsTransitive(d: GraphData, p: GraphData, r: GraphData)
    requires Extends(d, p) && Extends(p, r)
    ensures Extends(d, r)
  {
    forall k | k in d.nodes ensures d.nodes[k].edges <= r.nodes[k].edges {
      PrefixTransitive(d.nodes[k].edges, p.nodes[k].edges, r.nodes[k].edges);
    }
    PrefixTransitive(d.order, p.order, r.order);
  }

  /** The prefix order on sequences is transitive. */
  lemma {:induction false} PrefixTransitive<T>(s: seq<T>, t: seq<T>, u: seq<T>)
    requires s <= t && t <= u
    ensures s <= u
  {
    assert u[..|s|] == u[..|t|][..|s|];
  }

  /** One segment appends exactly `SegmentEdgesAt` to each node's list, after creating the two endpoints. */
  lemma {:induction false} EmitSegmentEdges(d: GraphData, a: Coord, b: Coord, distanceKm: real, road: Road)
    ensures var d1, r := InsertNode(InsertNode(d, a), b), EmitSegment(d, a, b, distanceKm, road);
      && r.nodes.Keys == d.nodes.Keys + {NodeKey(a), NodeKey(b)}
      && r.order == d1.order
      && forall k :: k in r.nodes ==>
           r.nodes[k].pos == d1.nodes[k].pos
           && r.nodes[k].edges == d1.nodes[k].edges + SegmentEdgesAt(road, a, b, distanceKm, k)
  {
    match road.oneway
    case Forward => EmitOneWayEdges(d, a, b, distanceKm, road);
    case Backward => EmitOneWayEdges(d, a, b, distanceKm, road);
    case No => EmitTwoWayEdges(d, a, b, distanceKm, road);
  }

  /** `EmitSegmentEdges` for a one-way road: one edge, on the list of its origin. */
  lemma {:induction false} EmitOneWayEdges(d: GraphData, a: Coord, b: Coord, distanceKm: real, road: Road)
    requires road.oneway != No
    ensures var d1, r := InsertNode(InsertNode(d, a), b), EmitSegment(d, a, b, distanceKm, road);
      && r.nodes.Keys == d.nodes.Keys + {NodeKey(a), NodeKey(b)}
      && r.order == d1.order
      && forall k :: k in r.nodes ==>
           r.nodes[k].pos == d1.nodes[k].pos
           && r.nodes[k].edges == d1.nodes[k].edges + SegmentEdgesAt(road, a, b, distanceKm, k)
  {
  }

  /** `EmitSegmentEdges` for a two-way road: a->b then b->a, both on one list when the endpoints share a key. */
  lemma {:induction false} EmitTwoWayEdges(d: GraphData, a: Coord, b: Coord, distanceKm: real, road: Road)
    requires road.oneway == No
    ensures var d1, r := InsertNode(InsertNode(d, a), b), EmitSegment(d, a, b, distanceKm, road);
      && r.nodes.Keys == d.nodes.Keys + {NodeKey(a), NodeKey(b)}
      && r.order == d1.order
      && forall k :: k in r.nodes ==>
           r.nodes[k].pos == d1.nodes[k].pos
           && r.nodes[k].edges == d1.nodes[k].edges + SegmentEdgesAt(road, a, b, distanceKm, k)
  {
    var d1, r := InsertNode(InsertNode(d, a), b), EmitSegment(d, a, b, distanceKm, road);
    var k1, k2 := NodeKey(a), NodeKey(b);
    forall k | k in r.nodes
      ensures r.nodes[k].edges == d1.nodes[k].edges + SegmentEdgesAt(road, a, b, distanceKm, k)
    {
      if k == k1 && k == k2 {
        assert r.nodes[k].edges == d1.nodes[k].edges + [Edge(k2, distanceKm, road)] + [Edge(k1, distanceKm, road)];
      }
    }
  }

  /** One segment keeps every old node, its position and its edges (as a prefix), and adds the two endpoints. */
  lemma {:induction false} EmitSegmentExtends(d: GraphData, a: Coord, b: Coord, distanceKm: real, road: Road)
    ensures var r := EmitSegment(d, a, b, distanceKm, road);
      && Extends(d, r)
      && r.nodes.Keys == d.nodes.Keys + {NodeKey(a), NodeKey(b)}
  {
    var d1, r := InsertNode(InsertNode(d, a), b), EmitSegment(d, a, b, distanceKm, road);
    EmitSegmentEdges(d, a, b, distanceKm, road);
    InsertBoth(d, a, b);
  }

  /** Adding the two endpoints keeps every old node and gives each new one an empty edge list. */
  lemma {:induction false} InsertBoth(d: GraphData, a: Coord, b: Coord)
    ensures var d1 := InsertNode(InsertNode(d, a), b);
      && (forall k :: k in d.nodes ==> d1.nodes[k] == d.nodes[k])
      && (forall k :: k in d1.nodes && k !in d.nodes ==> d1.nodes[k].edges == [])
  {
  }

  /** Every edge a segment appends is one that `Emitted` describes. */
  lemma {:induction false} SegmentEdgesEmitted(road: Road, a: Coord, b: Coord, distanceKm: real, k: Key, e: Edge)
    requires e in SegmentEdgesAt(road, a, b, distanceKm, k)
    ensures Emitted(road, a, b, distanceKm, k, e)
  {
  }

  /** Every edge after one segment is an old edge or one that the segment emits. */
  lemma {:induction false} EmitSegmentSound(d: GraphData, a: Coord, b: Coord, distanceKm: real, road: Road)
    ensures var r := EmitSegment(d, a, b, distanceKm, road);
      forall k, e :: k in r.nodes && e in r.nodes[k].edges ==>
        (k in d.nodes && e in d.nodes[k].edges) || Emitted(road, a, b, distanceKm, k, e)
  {
    var d1, r := InsertNode(InsertNode(d, a), b), EmitSegment(d, a, b, distanceKm, road);
    EmitSegmentEdges(d, a, b, distanceKm, road);
    InsertBoth(d, a, b);
    forall k, e | k in r.nodes && e in r.nodes[k].edges
      ensures (k in d.nodes && e in d.nodes[k].edges) || Emitted(road, a, b, distanceKm, k, e)
    {
      var s1, s2 := d1.nodes[k].edges, SegmentEdgesAt(road, a, b, distanceKm, k);
      assert e in s1 + s2;
      if e in s2 {
        SegmentEdgesEmitted(road, a, b, distanceKm, k, e);
      }
    }
  }

  /** After one segment its endpoints are nodes holding the edges it emits. */
  lemma {:induction false} EmitSegmentComplete(d: GraphData, a: Coord, b: Coord, distanceKm: real, road: Road)
    ensures var r := EmitSegment(d, a, b, distanceKm, road);
      && NodeKey(a) in r.nodes && NodeKey(b) in r.nodes
      && (road.oneway != Backward ==> Edge(NodeKey(b), distanceKm, road) in r.nodes[NodeKey(a)].edges)
      && (road.oneway != Forward ==> Edge(NodeKey(a), distanceKm, road) in r.nodes[NodeKey(b)].edges)
  {
    EmitSegmentEdges(d, a, b, distanceKm, road);
  }

  /** The rest of the loop keeps every existing node, its position, and its edges as a prefix of its new list. */
  lemma {:induction false} BuildKeepsExisting(d: GraphData, road: Road, pts: seq<Coord>, dist: (Coord, Coord) -> real, i: nat)
    ensures Extends(d, BuildRoad(d, road, pts, dist, i))
    decreases |pts| - i
  {
    if i + 1 < |pts| {
      var d' := EmitSegment(d, pts[i], pts[i + 1], dist(pts[i], pts[i + 1]), road);
      EmitSegmentExtends(d, pts[i], pts[i + 1], dist(pts[i], pts[i + 1]), road);
      BuildKeepsExisting(d', road, pts, dist, i + 1);
      ExtendsTransitive(d, d', BuildRoad(d', road, pts, dist, i + 1));
    }
  }

  /** The nodes after the loop are the old ones plus the points from index `i` on. */
  lemma {:induction false} BuildKeys(d: GraphData, road: Road, pts: seq<Coord>, dist: (Coord, Coord) -> real, i: nat)
    ensures var r := BuildRoad(d, road, pts, dist, i);
      forall k :: k in r.nodes ==> k in d.nodes || exists j :: i <= j < |pts| && k == NodeKey(pts[j])
    decreases |pts| - i
  {
    if i + 1 < |pts| {
      var d' := EmitSegment(d, pts[i], pts[i + 1], dist(pts[i], pts[i + 1]), road);
      EmitSegmentExtends(d, pts[i], pts[i + 1], dist(pts[i], pts[i + 1]), road);
      BuildKeys(d', road, pts, dist, i + 1);
    }
  }

  /** Completeness of the build: segment `j`, at or after index `i`, is present in the result. */
  lemma {:induction false} BuildEmitsSegment(d: GraphData, road: Road, pts: seq<Coord>, dist: (Coord, Coord) -> real, i: nat, j: nat)
    requires i <= j < |pts| - 1
    ensures SegmentPresent(BuildRoad(d, road, pts, dist, i), road, pts, dist, j)
    decreases j - i
  {
    var a, b := pts[i], pts[i + 1];
    var d' := EmitSegment(d, a, b, dist(a, b), road);
    var r := BuildRoad(d', road, pts, dist, i + 1);
    assert BuildRoad(d, road, pts, dist, i) == r;
    if j == i {
      EmitSegmentComplete(d, a, b, dist(a, b), road);
      BuildKeepsExisting(d', road, pts, dist, i + 1);
      PrefixMember(d'.nodes[NodeKey(a)].edges, r.nodes[NodeKey(a)].edges);
      PrefixMember(d'.nodes[NodeKey(b)].edges, r.nodes[NodeKey(b)].edges);
    } else {
      BuildEmitsSegment(d', road, pts, dist, i + 1, j);
    }
  }

  /** Soundness of the build: an edge of the result is an old edge or one that a processed segment emits. */
  lemma {:induction false} BuildOnlyEmits(d: GraphData, road: Road, pts: seq<Coord>, dist: (Coord, Coord) -> real, i: nat)
    ensures var r := BuildRoad(d, road, pts, dist, i);
      forall k, e :: k in r.nodes && e in r.nodes[k].edges ==>
        (k in d.nodes && e in d.nodes[k].edges) || EmittedFrom(road, pts, dist, i, k, e)
    decreases |pts| - i
  {
    if i + 1 < |pts| {
      var a, b := pts[i], pts[i + 1];
      var d' := EmitSegment(d, a, b, dist(a, b), road);
      var r := BuildRoad(d', road, pts, dist, i + 1);
      EmitSegmentSound(d, a, b, dist(a, b), road);
      BuildOnlyEmits(d', road, pts, dist, i + 1);
      forall k, e | k in r.nodes && e in r.nodes[k].edges
        ensures (k in d.nodes && e in d.nodes[k].edges) || EmittedFrom(road, pts, dist, i, k, e)
      {
        if k in d'.nodes && e in d'.nodes[k].edges {
          if !(k in d.nodes && e in d.nodes[k].edges) {
            assert EmittedAt(road, pts, dist, i, k, e);
          }
        } else {
          EmittedFromWiden(road, pts, dist, i, k, e);
        }
      }
    }
  }

  /** An edge emitted from index `i + 1` on is emitted from index `i` on. */
  lemma {:induction false} EmittedFromWiden(road: Road, pts: seq<Coord>, dist: (Coord, Coord) -> real, i: nat, k: Key, e: Edge)
    requires EmittedFrom(road, pts, dist, i + 1, k, e)
    ensures EmittedFrom(road, pts, dist, i, k, e)
  {
    var j :| i + 1 <= j && EmittedAt(road, pts, dist, j, k, e);
    assert i <= j;
  }

  /**
   * For a road that no edge referred to before, the build loop gives node `k`
   * the edge `e` of that road exactly when one of the road's segments emits it.
   */
  lemma {:induction false} BuildEdgesOfNewRoad(d: GraphData, road: Road, pts: seq<Coord>, dist: (Coord, Coord) -> real, k: Key, e: Edge)
    requires forall k', e' {:trigger e' in d.nodes[k'].edges} :: k' in d.nodes && e' in d.nodes[k'].edges ==> e'.road != road
    requires e.road == road
    ensures var r := BuildRoad(d, road, pts, dist, 0);
      k in r.nodes && e in r.nodes[k].edges <==> EmittedFrom(road, pts, dist, 0, k, e)
  {
    var r := BuildRoad(d, road, pts, dist, 0);
    BuildOnlyEmits(d, road, pts, dist, 0);
    if EmittedFrom(road, pts, dist, 0, k, e) {
      var j :| 0 <= j && EmittedAt(road, pts, dist, j, k, e);
      BuildEmitsSegment(d, road, pts, dist, 0, j);
      assert e == Edge(e.to, dist(pts[j], pts[j + 1]), road);
    }
  }

  /** `addNode` keeps `order` listing every key exactly once. */
  lemma {:induction false} InsertNodeOrder(d: GraphData, c: Coord)
    requires OrderListsKeys(d)
    ensures OrderListsKeys(InsertNode(d, c))
  {
    var r := InsertNode(d, c);
    if NodeKey(c) !in d.nodes {
      forall i, j | 0 <= i < j < |r.order| ensures r.order[i] != r.order[j] {
        if j < |d.order| {
          assert r.order[i] == d.order[i] && r.order[j] == d.order[j];
        } else {
          assert r.order[i] == d.order[i];
        }
      }
    }
  }

  /** Pushing an edge to a node of the graph keeps every edge leading to a node of the graph. */
  lemma {:induction false} AppendEdgeClosed(nodes: map<Key, Node>, roads: set<Road>, from: Key, e: Edge)
    requires EdgesClosed(nodes, roads) && from in nodes
    requires e.to in nodes && e.road in roads && e.distanceKm >= 0.0
    ensures EdgesClosed(nodes[from := Node(nodes[from].pos, nodes[from].edges + [e])], roads)
  {
    var r := nodes[from := Node(nodes[from].pos, nodes[from].edges + [e])];
    forall k, e' | k in r && e' in r[k].edges
      ensures e'.to in r && e'.road in roads && e'.distanceKm >= 0.0
    {
      if k != from || e' != e {
        assert e' in nodes[k].edges;
      }
    }
  }

  /** One segment keeps every edge leading to a node of the graph. */
  lemma {:induction false} EmitSegmentClosed(d: GraphData, roads: set<Road>, a: Coord, b: Coord, distanceKm: real, road: Road)
    requires EdgesClosed(d.nodes, roads) && road in roads && distanceKm >= 0.0
    ensures EdgesClosed(EmitSegment(d, a, b, distanceKm, road).nodes, roads)
  {
    var d1 := InsertNode(InsertNode(d, a), b);
    assert EdgesClosed(d1.nodes, roads);
    var k1, k2 := NodeKey(a), NodeKey(b);
    var e1, e2 := Edge(k2, distanceKm, road), Edge(k1, distanceKm, road);
    match road.oneway
    case Forward => AppendEdgeClosed(d1.nodes, roads, k1, e1);
    case Backward => AppendEdgeClosed(d1.nodes, roads, k2, e2);
    case No =>
      AppendEdgeClosed(d1.nodes, roads, k1, e1);
      AppendEdgeClosed(AppendEdge(d1, k1, e1).nodes, roads, k2, e2);
  }

  /** One segment keeps `order` listing every key exactly once. */
  lemma {:induction false} EmitSegmentOrder(d: GraphData, a: Coord, b: Coord, distanceKm: real, road: Road)
    requires OrderListsKeys(d)
    ensures OrderListsKeys(EmitSegment(d, a, b, distanceKm, road))
  {
    InsertNodeOrder(d, a);
    InsertNodeOrder(InsertNode(d, a), b);
  }

  /** The build loop keeps every edge leading to a node of the graph. */
  lemma {:induction false} BuildClosed(d: GraphData, roads: set<Road>, road: Road, pts: seq<Coord>, dist: (Coord, Coord) -> real, i: nat)
    requires EdgesClosed(d.nodes, roads) && road in roads
    requires forall a, b :: dist(a, b) >= 0.0
    ensures EdgesClosed(BuildRoad(d, road, pts, dist, i).nodes, roads)
    decreases |pts| - i
  {
    if i + 1 < |pts| {
      EmitSegmentClosed(d, roads, pts[i], pts[i + 1], dist(pts[i], pts[i + 1]), road);
      BuildClosed(EmitSegment(d, pts[i], pts[i + 1], dist(pts[i], pts[i + 1]), road), roads, road, pts, dist, i + 1);
    }
  }

  /** The build loop keeps `order` listing every key exactly once. */
  lemma {:induction false} BuildOrder(d: GraphData, road: Road, pts: seq<Coord>, dist: (Coord, Coord) -> real, i: nat)
    requires OrderListsKeys(d)
    ensures OrderListsKeys(BuildRoad(d, road, pts, dist, i))
    decreases |pts| - i
  {
    if i + 1 < |pts| {
      EmitSegmentOrder(d, pts[i], pts[i + 1], dist(pts[i], pts[i + 1]), road);
      BuildOrder(EmitSegment(d, pts[i], pts[i + 1], dist(pts[i], pts[i + 1]), road), road, pts, dist, i + 1);
    }
  }

  /** Elements of a prefix are elements of the whole sequence. */
  lemma {:induction false} PrefixMember<T>(s: seq<T>, t: seq<T>)
    requires s <= t
    ensures forall x :: x in s ==> x in t
  {
    forall x | x in s ensures x in t {
      var i :| 0 <= i < |s| && s[i] == x;
      assert t[i] == x;
    }
  }

  /**
   * `graph`: the node map and, beside it, the order in which its keys were
   * inserted (the iteration order of the JavaScript `Map`).
   */
  class Graph {
    var nodes: map<Key, Node>
    var order: seq<Key>
    /** The roads that the edges refer to. */
    ghost var roads: set<Road>

    /** The node map and its insertion order as one value. */
    function Data(): GraphData
      reads this
    {
      GraphData(nodes, order)
    }

    /** Edges closed over the nodes and `roads`, and `order` listing every key once. */
    ghost predicate Valid()
      reads this
    {
      WellFormed(Data(), roads)
    }

    constructor ()
      ensures Valid() && nodes == map[] && order == [] && roads == {}
    {
      nodes := map[];
      order := [];
      roads := {};
    }

    /** `addNode`: returns the key of `c`, creating an edgeless node only if the key is new. */
    method AddNode(c: Coord) returns (k: Key)
      modifies this
      ensures roads == old(roads)
      ensures k == NodeKey(c) && k in nodes
      ensures Data() == InsertNode(old(Data()), c)
      ensures old(Valid()) ==> Valid()
    {
      if Valid() {
        InsertNodeOrder(Data(), c);
      }
      k := NodeKey(c);
      if k !in nodes {
        nodes := nodes[k := Node(c, [])];
        order := order + [k];
      }
    }

    /** `addEdge`: pushes one edge onto the list of `from` and changes nothing else. */
    method AddEdge(from: Key, to: Key, distanceKm: real, road: Road)
      requires from in nodes
      modifies this
      ensures roads == old(roads)
      ensures Data() == AppendEdge(old(Data()), from, Edge(to, distanceKm, road))
    {
      nodes := nodes[from := Node(nodes[from].pos, nodes[from].edges + [Edge(to, distanceKm, road)])];
    }

    /** One pass of the build loop: add both endpoints, then the edges the road's one-way mode allows. */
    method AddSegment(a: Coord, b: Coord, distanceKm: real, road: Road)
      modifies this
      ensures roads == old(roads)
      ensures Data() == EmitSegment(old(Data()), a, b, distanceKm, road)
    {
      var k1 := AddNode(a);
      var k2 := AddNode(b);
      if road.oneway == Forward {
        AddEdge(k1, k2, distanceKm, road);
      } else if road.oneway == Backward {
        AddEdge(k2, k1, distanceKm, road);
      } else {
        AddEdge(k1, k2, distanceKm, road);
        AddEdge(k2, k1, distanceKm, road);
      }
    }

    /**
     * The build loop of one road: each consecutive pair of points is one
     * segment. `dist` is the segment length (great-circle distance in km).
     */
    method AddRoad(road: Road, pts: seq<Coord>, dist: (Coord, Coord) -> real)
      requires Valid()
      requires forall a, b :: dist(a, b) >= 0.0
      modifies this
      ensures Valid() && roads == old(roads) + {road}
      ensures Data() == BuildRoad(old(Data()), road, pts, dist, 0)
    {
      roads := roads + {road};
      ghost var start := Data();
      var i := 0;
      while i + 1 < |pts|
        invariant roads == old(roads) + {road}
        invariant BuildRoad(Data(), road, pts, dist, i) == BuildRoad(start, road, pts, dist, 0)
      {
        ghost var before := Data();
        AddSegment(pts[i], pts[i + 1], dist(pts[i], pts[i + 1]), road);
        BuildRoadStep(before, road, pts, dist, i);
        i := i + 1;
      }
      BuildClosed(start, roads, road, pts, dist, 0);
      BuildOrder(start, road, pts, dist, 0);
    }
  }
}
