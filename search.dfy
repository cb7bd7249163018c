/**
 * The route search: `aStar` with `reconstruct`, and `findNearestNode`.
 *
 * The search works on the node map of the road graph. Its `g`, `f` and
 * `cameFrom` maps and its `open` set are one `SearchState` value; `g` and `f`
 * hold only the finite entries, a key missing from them standing for the
 * `Infinity` every node starts with. The inner loop over the edges of the
 * expanded node is specified by `RelaxFrom`, one `RelaxEdge` per edge, and
 * the invariants of the search are proved about that function.
 */
module Search {
  import opened Wrappers
  import opened Speed
  import opened Geometry
  import opened RoadGraph

  /**
   * What a search ends with: a path of node keys (`Found`), `null` because
   * the open set emptied (`NoPath`), a `cameFrom` chain that comes back on
   * itself, on which `reconstruct` would never stop (`Loops`), or the
   * iteration budget spent (`OutOfFuel`).
   */
  datatype SearchResult = Found(path: seq<Key>) | NoPath | Loops | OutOfFuel

  /** The search maps and the open set (kept in insertion order, without repeats). */
  datatype SearchState = SearchState(open: seq<Key>, g: map<Key, real>, f: map<Key, real>, cameFrom: map<Key, Key>)

  /** The roads of the graph that are blocked right now. */
  ghost function Blocked(graph: Graph): set<Road>
    reads graph, graph.roads
  {
    set r | r in graph.roads && r.isBlocked
  }

  /**
   * An edge the search may take in `mode`: its road is not blocked and its
   * speed is not zero (a zero speed gives an infinite or undefined time,
   * which never beats a `g` value).
   */
  predicate Usable(e: Edge, mode: Mode, blocked: set<Road>)
  {
    e.road !in blocked && GetSpeed(e.road.tags, mode) != 0
  }

  /** Minutes to traverse `e` in `mode`, `(distanceKm / speed) * 60`. */
  function EdgeMinutes(e: Edge, mode: Mode): Option<real>
  {
    TravelMinutes(e.distanceKm, GetSpeed(e.road.tags, mode))
  }

  /** `heuristic(a, b)`: the distance between the two nodes' positions. */
  function Heuristic(nodes: map<Key, Node>, a: Key, b: Key, dist: (Coord, Coord) -> real): real
    requires a in nodes && b in nodes
  {
    dist(nodes[a].pos, nodes[b].pos)
  }

  /**
   * The estimate is never negative for a distance that is never negative,
   * and is zero at the goal itself when a point is at distance zero from
   * itself.
   */
  lemma {:induction false} HeuristicBounds(nodes: map<Key, Node>, a: Key, b: Key, dist: (Coord, Coord) -> real)
    requires a in nodes && b in nodes
    ensures (forall p, q :: dist(p, q) >= 0.0) ==> Heuristic(nodes, a, b, dist) >= 0.0
    ensures a == b && (forall p :: dist(p, p) == 0.0) ==> Heuristic(nodes, a, b, dist) == 0.0
  {
  }

  /** Node `u` has a usable edge to `v`. */
  ghost predicate Link(nodes: map<Key, Node>, u: Key, v: Key, mode: Mode, blocked: set<Road>)
  {
    u in nodes && exists e :: e in nodes[u].edges && e.to == v && Usable(e, mode, blocked)
  }

  /** `path` goes from `start` to `goal` through nodes of the graph, each step along a usable edge. */
  ghost predicate IsRoute(nodes: map<Key, Node>, path: seq<Key>, start: Key, goal: Key, mode: Mode, blocked: set<Road>)
  {
    && |path| > 0 && path[0] == start && path[|path| - 1] == goal
    && (forall i :: 0 <= i < |path| ==> path[i] in nodes)
    && (forall i :: 0 <= i < |path| - 1 ==> Link(nodes, path[i], path[i + 1], mode, blocked))
  }

  /** Every edge target is a node, every length is non-negative: `EdgesClosed` without the road set, which the search does not read. */
  ghost predicate EdgesOk(nodes: map<Key, Node>)
  {
    forall k, e {:trigger e in nodes[k].edges} :: k in nodes && e in nodes[k].edges ==> e.to in nodes && e.distanceKm >= 0.0
  }

  /** No edge of the graph has a negative speed in `mode` (only a car's `maxspeed` can be negative). */
  ghost predicate NoNegativeSpeeds(nodes: map<Key, Node>, mode: Mode)
  {
    forall k, e {:trigger e in nodes[k].edges} :: k in nodes && e in nodes[k].edges ==> GetSpeed(e.road.tags, mode) >= 0
  }

  // ---------------------------------------------------------------------------
  // One relaxation step and the edge loop

  /**
   * One iteration of the edge loop of `aStar`: a blocked edge, or one whose
   * time is not a number, is skipped; otherwise a tentative cost below the
   * target's `g` (or a target still at `Infinity`) records `current` as its
   * predecessor, lowers `g` and `f` and puts the target in the open set.
   */
  function RelaxEdge(nodes: map<Key, Node>, s: SearchState, current: Key, e: Edge, goal: Key, mode: Mode,
                     blocked: set<Road>, dist: (Coord, Coord) -> real): (r: SearchState)
    requires current in s.g && e.to in nodes && goal in nodes
    ensures s.g.Keys <= r.g.Keys
  {
    if e.road in blocked then s
    else match EdgeMinutes(e, mode)
      case None => s
      case Some(time) =>
        var tentative := s.g[current] + time;
        if e.to in s.g && tentative >= s.g[e.to] then s
        else SearchState(
          if e.to in s.open then s.open else s.open + [e.to],
          s.g[e.to := tentative],
          s.f[e.to := tentative + Heuristic(nodes, e.to, goal, dist)],
          s.cameFrom[e.to := current])
  }

  /** The edge loop from edge `i` on. */
  function RelaxFrom(nodes: map<Key, Node>, s: SearchState, current: Key, edges: seq<Edge>, i: nat, goal: Key, mode: Mode,
                     blocked: set<Road>, dist: (Coord, Coord) -> real): (r: SearchState)
    requires current in s.g && goal in nodes && forall e :: e in edges ==> e.to in nodes
    ensures s.g.Keys <= r.g.Keys
    decreases |edges| - i
  {
    if i >= |edges| then s
    else RelaxFrom(nodes, RelaxEdge(nodes, s, current, edges[i], goal, mode, blocked, dist), current, edges, i + 1, goal, mode, blocked, dist)
  }

  /** One turn of the edge loop: edge `i`, then the rest. */
  lemma {:induction false} RelaxFromStep(nodes: map<Key, Node>, s: SearchState, current: Key, edges: seq<Edge>, i: nat, goal: Key, mode: Mode,
                      blocked: set<Road>, dist: (Coord, Coord) -> real)
    requires current in s.g && goal in nodes && (forall e :: e in edges ==> e.to in nodes) && i < |edges|
    ensures RelaxFrom(nodes, s, current, edges, i, goal, mode, blocked, dist)
         == RelaxFrom(nodes, RelaxEdge(nodes, s, current, edges[i], goal, mode, blocked, dist), current, edges, i + 1, goal, mode, blocked, dist)
  {
  }

  /**
   * One relaxation step changes nothing unless the edge is usable and its
   * target improves; then the target gets `current` as predecessor and a
   * lower (or first finite) `g`, and is open.
   */
  lemma {:induction false} RelaxEdgeEffect(nodes: map<Key, Node>, s: SearchState, current: Key, e: Edge, goal: Key, mode: Mode,
                        blocked: set<Road>, dist: (Coord, Coord) -> real)
    requires current in s.g && e.to in nodes && goal in nodes
    ensures var r := RelaxEdge(nodes, s, current, e, goal, mode, blocked, dist);
      && (!Usable(e, mode, blocked) ==> r == s)
      && (r != s ==>
            && Usable(e, mode, blocked)
            && e.to in r.g && (e.to !in s.g || r.g[e.to] < s.g[e.to])
            && r.g[e.to] == s.g[current] + EdgeMinutes(e, mode).value
            && r.cameFrom == s.cameFrom[e.to := current]
            && r.g == s.g[e.to := r.g[e.to]]
            && e.to in r.open)
  {
  }

  /**
   * The priority a relaxation gives the reached key is its new cost plus
   * the estimate to the goal: never below that cost when distances are never
   * negative, and equal to it when the reached key is the goal and a point is
   * at distance zero from itself.
   */
  lemma {:induction false} RelaxEdgeScore(nodes: map<Key, Node>, s: SearchState, current: Key, e: Edge, goal: Key, mode: Mode,
                                          blocked: set<Road>, dist: (Coord, Coord) -> real)
    requires current in s.g && e.to in nodes && goal in nodes
    ensures var r := RelaxEdge(nodes, s, current, e, goal, mode, blocked, dist);
      r != s ==>
        && e.to in r.g && e.to in r.f
        && r.f[e.to] == r.g[e.to] + Heuristic(nodes, e.to, goal, dist)
        && ((forall p, q :: dist(p, q) >= 0.0) ==> r.f[e.to] >= r.g[e.to])
        && (e.to == goal && (forall p :: dist(p, p) == 0.0) ==> r.f[e.to] == r.g[e.to])
  {
    HeuristicBounds(nodes, e.to, goal, dist);
  }

  /** A `g` value only ever decreases, and no key loses its value. */
  lemma {:induction false} RelaxFromDecreases(nodes: map<Key, Node>, s: SearchState, current: Key, edges: seq<Edge>, i: nat,
                                              goal: Key, mode: Mode, blocked: set<Road>, dist: (Coord, Coord) -> real)
    requires current in s.g && goal in nodes && forall e :: e in edges ==> e.to in nodes
    ensures var r := RelaxFrom(nodes, s, current, edges, i, goal, mode, blocked, dist);
      forall k :: k in s.g ==> k in r.g && r.g[k] <= s.g[k]
    decreases |edges| - i
  {
    if i < |edges| {
      var s1 := RelaxEdge(nodes, s, current, edges[i], goal, mode, blocked, dist);
      RelaxFromDecreases(nodes, s1, current, edges, i + 1, goal, mode, blocked, dist);
    }
  }

  /** After the edge loop, the target of every usable edge from `i` on has a finite `g`. */
  lemma {:induction false} RelaxFromCovers(nodes: map<Key, Node>, s: SearchState, current: Key, edges: seq<Edge>, i: nat,
                                           goal: Key, mode: Mode, blocked: set<Road>, dist: (Coord, Coord) -> real)
    requires current in s.g && goal in nodes && forall e :: e in edges ==> e.to in nodes
    ensures var r := RelaxFrom(nodes, s, current, edges, i, goal, mode, blocked, dist);
      forall m :: i <= m < |edges| && Usable(edges[m], mode, blocked) ==> edges[m].to in r.g
    decreases |edges| - i
  {
    if i < |edges| {
      var s1 := RelaxEdge(nodes, s, current, edges[i], goal, mode, blocked, dist);
      RelaxFromCovers(nodes, s1, current, edges, i + 1, goal, mode, blocked, dist);
    }
  }

  // ---------------------------------------------------------------------------
  // The invariants of the search

  /**
   * What holds of the search state between iterations: `start` is reached;
   * every finite key is a node with an `f`; open keys are finite and
   * distinct; each predecessor link is a usable edge between finite keys;
   * every finite key but `start` has a predecessor; and a finite `goal` is
   * open, since it leaves the open set only by being selected.
   */
  ghost predicate Sound(nodes: map<Key, Node>, start: Key, goal: Key, mode: Mode, blocked: set<Road>, s: SearchState)
  {
    && start in s.g
    && s.g.Keys <= nodes.Keys
    && s.f.Keys == s.g.Keys
    && (forall i :: 0 <= i < |s.open| ==> s.open[i] in s.g)
    && Distinct(s.open)
    && LinksOk(nodes, mode, blocked, s)
    && Rooted(start, s)
    && (goal in s.g ==> goal in s.open)
  }

  /** Each predecessor link joins two finite keys along a usable edge. */
  ghost predicate LinksOk(nodes: map<Key, Node>, mode: Mode, blocked: set<Road>, s: SearchState)
  {
    forall v :: v in s.cameFrom ==> v in s.g && s.cameFrom[v] in s.g && Link(nodes, s.cameFrom[v], v, mode, blocked)
  }

  /** Every finite key but `start` has a predecessor. */
  ghost predicate Rooted(start: Key, s: SearchState)
  {
    forall k :: k in s.g ==> k == start || k in s.cameFrom
  }

  /** Every usable edge out of a finite key that is not open, other than `except`, leads to a finite key. */
  ghost predicate ClosedBut(nodes: map<Key, Node>, mode: Mode, blocked: set<Road>, s: SearchState, except: Option<Key>)
  {
    forall k, e {:trigger e in nodes[k].edges} ::
      k in s.g && k in nodes && k !in s.open && Some(k) != except && e in nodes[k].edges && Usable(e, mode, blocked)
      ==> e.to in s.g
  }

  /** One relaxation step keeps the search invariants. */
  lemma {:induction false} RelaxEdgeSound(nodes: map<Key, Node>, start: Key, goal: Key, mode: Mode, blocked: set<Road>, dist: (Coord, Coord) -> real,
                       s: SearchState, current: Key, e: Edge)
    requires Sound(nodes, start, goal, mode, blocked, s) && current in s.g && e in nodes[current].edges && e.to in nodes && goal in nodes
    ensures Sound(nodes, start, goal, mode, blocked, RelaxEdge(nodes, s, current, e, goal, mode, blocked, dist))
  {
    var r := RelaxEdge(nodes, s, current, e, goal, mode, blocked, dist);
    if r != s {
      assert Link(nodes, current, e.to, mode, blocked);
      forall i, j | 0 <= i < j < |r.open| ensures r.open[i] != r.open[j] {
        if j == |s.open| {
          assert r.open[i] == s.open[i];
        }
      }
    }
  }

  /** One relaxation step never makes a finite key infinite, so explored edges stay explored. */
  lemma {:induction false} RelaxEdgeClosed(nodes: map<Key, Node>, mode: Mode, blocked: set<Road>, dist: (Coord, Coord) -> real, goal: Key,
                        s: SearchState, current: Key, e: Edge, except: Option<Key>)
    requires ClosedBut(nodes, mode, blocked, s, except) && current in s.g && e.to in nodes && goal in nodes
    ensures ClosedBut(nodes, mode, blocked, RelaxEdge(nodes, s, current, e, goal, mode, blocked, dist), except)
  {
  }

  /** The edge loop keeps the search invariants. */
  lemma {:induction false} RelaxFromSound(nodes: map<Key, Node>, start: Key, goal: Key, mode: Mode, blocked: set<Road>,
                                          dist: (Coord, Coord) -> real, s: SearchState, current: Key, i: nat, except: Option<Key>)
    requires Sound(nodes, start, goal, mode, blocked, s) && ClosedBut(nodes, mode, blocked, s, except)
    requires current in s.g && current in nodes && goal in nodes && forall e :: e in nodes[current].edges ==> e.to in nodes
    ensures var r := RelaxFrom(nodes, s, current, nodes[current].edges, i, goal, mode, blocked, dist);
      Sound(nodes, start, goal, mode, blocked, r) && ClosedBut(nodes, mode, blocked, r, except)
    decreases |nodes[current].edges| - i
  {
    var edges := nodes[current].edges;
    if i < |edges| {
      RelaxEdgeSound(nodes, start, goal, mode, blocked, dist, s, current, edges[i]);
      RelaxEdgeClosed(nodes, mode, blocked, dist, goal, s, current, edges[i], except);
      var s1 := RelaxEdge(nodes, s, current, edges[i], goal, mode, blocked, dist);
      RelaxFromSound(nodes, start, goal, mode, blocked, dist, s1, current, i + 1, except);
    }
  }

  /**
   * Expanding `current` (taking it out of the open set and relaxing all its
   * edges) keeps the search invariants, and afterwards every finite key
   * that is not open has all its usable edges explored.
   */
  lemma {:induction false} ExpandSound(nodes: map<Key, Node>, start: Key, goal: Key, mode: Mode, blocked: set<Road>, dist: (Coord, Coord) -> real,
                    s: SearchState, current: Key)
    requires Sound(nodes, start, goal, mode, blocked, s) && ClosedBut(nodes, mode, blocked, s, None)
    requires current in s.open && current != goal && goal in nodes && EdgesOk(nodes)
    ensures var s1 := s.(open := Without(s.open, current));
      var r := RelaxFrom(nodes, s1, current, nodes[current].edges, 0, goal, mode, blocked, dist);
      Sound(nodes, start, goal, mode, blocked, r) && ClosedBut(nodes, mode, blocked, r, None)
  {
    var edges := nodes[current].edges;
    var s1 := s.(open := Without(s.open, current));
    forall i | 0 <= i < |s1.open| ensures s1.open[i] in s1.g {
      assert s1.open[i] in s.open;
    }
    RelaxFromSound(nodes, start, goal, mode, blocked, dist, s1, current, 0, Some(current));
    RelaxFromCovers(nodes, s1, current, edges, 0, goal, mode, blocked, dist);
    var r := RelaxFrom(nodes, s1, current, edges, 0, goal, mode, blocked, dist);
    forall k, e | k in r.g && k in nodes && k !in r.open && e in nodes[k].edges && Usable(e, mode, blocked)
      ensures e.to in r.g
    {
      if k == current {
        var m :| 0 <= m < |edges| && edges[m] == e;
      }
    }
  }

  /** `open.delete(k)`: the sequence without `k`, order kept. */
  function Without(open: seq<Key>, k: Key): (r: seq<Key>)
    ensures forall x :: x in r <==> x in open && x != k
    ensures Distinct(open) ==> Distinct(r)
    ensures |r| <= |open|
  {
    if |open| == 0 then []
    else if open[0] == k then Without(open[1..], k)
    else
      var rest := Without(open[1..], k);
      assert Distinct(open) ==> Distinct(open[1..]) && open[0] !in open[1..];
      [open[0]] + rest
  }

  /** Deleting a key that is not in the open set leaves it as it was. */
  lemma {:induction false} WithoutAbsent(open: seq<Key>, k: Key)
    requires k !in open
    ensures Without(open, k) == open
    decreases |open|
  {
    if |open| > 0 {
      WithoutAbsent(open[1..], k);
      assert [open[0]] + open[1..] == open;
    }
  }

  /** In an open set without repeats, deleting the key at position `i` closes the gap and keeps the rest in order. */
  lemma {:induction false} WithoutAt(open: seq<Key>, k: Key, i: int)
    requires Distinct(open) && 0 <= i < |open| && open[i] == k
    ensures Without(open, k) == open[..i] + open[i + 1..]
    decreases |open|
  {
    if i == 0 {
      assert k !in open[1..];
      WithoutAbsent(open[1..], k);
    } else {
      assert Distinct(open[1..]);
      WithoutAt(open[1..], k, i - 1);
      assert open[1..][..i - 1] == open[1..i];
      assert open[1..][i..] == open[i + 1..];
      assert [open[0]] + open[1..i] == open[..i];
    }
  }

  /**
   * When the open set has emptied, every key a route from `start` reaches
   * is finite; since a finite goal would be open, no route reaches `goal`.
   */
  lemma {:induction false} ExhaustedReach(nodes: map<Key, Node>, start: Key, goal: Key, mode: Mode, blocked: set<Road>,
                                          s: SearchState, p: seq<Key>, i: nat)
    requires Sound(nodes, start, goal, mode, blocked, s) && ClosedBut(nodes, mode, blocked, s, None) && |s.open| == 0
    requires IsRoute(nodes, p, start, goal, mode, blocked) && i < |p|
    ensures p[i] in s.g
  {
    if i > 0 {
      ExhaustedReach(nodes, start, goal, mode, blocked, s, p, i - 1);
      assert Link(nodes, p[i - 1], p[i], mode, blocked);
    }
  }

  /** `return null` once the open set is empty: no route from `start` to `goal` exists. */
  lemma {:induction false} ExhaustedNoRoute(nodes: map<Key, Node>, start: Key, goal: Key, mode: Mode, blocked: set<Road>, s: SearchState)
    requires Sound(nodes, start, goal, mode, blocked, s) && ClosedBut(nodes, mode, blocked, s, None) && |s.open| == 0
    ensures forall p :: !IsRoute(nodes, p, start, goal, mode, blocked)
  {
    forall p | IsRoute(nodes, p, start, goal, mode, blocked) ensures false {
      ExhaustedReach(nodes, start, goal, mode, blocked, s, p, |p| - 1);
    }
  }

  // ---------------------------------------------------------------------------
  // Acyclicity of the predecessor links when no speed is negative

  /**
   * `u` comes strictly before `v` in the order (g value, time of last
   * update), `t` giving the update times.
   */
  ghost predicate Before(g: map<Key, real>, t: map<Key, nat>, u: Key, v: Key)
  {
    u in g && v in g && u in t && v in t && (g[u] < g[v] || (g[u] == g[v] && t[u] < t[v]))
  }

  /** Update times below `clock` for every finite key, and each predecessor strictly before its node. */
  ghost predicate Ranked(g: map<Key, real>, cameFrom: map<Key, Key>, t: map<Key, nat>, clock: nat)
  {
    && (forall k :: k in g ==> k in t && t[k] < clock)
    && (forall v :: v in cameFrom ==> Before(g, t, cameFrom[v], v))
  }

  /** Some update times rank the predecessor links: the links have no cycle. */
  ghost predicate Acyclic(s: SearchState)
  {
    exists t, clock :: Ranked(s.g, s.cameFrom, t, clock)
  }

  /** `Before` is transitive. */
  lemma {:induction false} BeforeTransitive(g: map<Key, real>, t: map<Key, nat>, a: Key, b: Key, c: Key)
    requires Before(g, t, a, b) && Before(g, t, b, c)
    ensures Before(g, t, a, c)
  {
  }

  /**
   * With no negative speed, a relaxation step keeps the links ranked: the
   * updated target gets the newest time and a `g` no smaller than its
   * predecessor's.
   */
  lemma {:induction false} RelaxEdgeRanked(nodes: map<Key, Node>, s: SearchState, current: Key, e: Edge, goal: Key, mode: Mode,
                        blocked: set<Road>, dist: (Coord, Coord) -> real, t: map<Key, nat>, clock: nat)
    requires current in s.g && e.to in nodes && goal in nodes
    requires s.cameFrom.Keys <= s.g.Keys && Ranked(s.g, s.cameFrom, t, clock)
    requires GetSpeed(e.road.tags, mode) >= 0 && e.distanceKm >= 0.0
    ensures var r := RelaxEdge(nodes, s, current, e, goal, mode, blocked, dist);
      && r.g[current] == s.g[current]
      && r.cameFrom.Keys <= r.g.Keys
      && Ranked(r.g, r.cameFrom, if r == s then t else t[e.to := clock], clock + 1)
  {
    var r := RelaxEdge(nodes, s, current, e, goal, mode, blocked, dist);
    if r != s {
      var v := e.to;
      var t1 := t[v := clock];
      assert v != current;
      forall w | w in r.cameFrom ensures Before(r.g, t1, r.cameFrom[w], w) {
        if w != v {
          assert Before(s.g, t, s.cameFrom[w], w);
        }
      }
    }
  }

  /** The edge loop keeps the links ranked when no speed is negative. */
  lemma {:induction false} RelaxFromRanked(nodes: map<Key, Node>, s: SearchState, current: Key, edges: seq<Edge>, i: nat,
                                           goal: Key, mode: Mode, blocked: set<Road>, dist: (Coord, Coord) -> real,
                                           t: map<Key, nat>, clock: nat)
    requires current in s.g && goal in nodes && forall e :: e in edges ==> e.to in nodes
    requires forall e :: e in edges ==> GetSpeed(e.road.tags, mode) >= 0 && e.distanceKm >= 0.0
    requires s.cameFrom.Keys <= s.g.Keys && Ranked(s.g, s.cameFrom, t, clock)
    ensures Acyclic(RelaxFrom(nodes, s, current, edges, i, goal, mode, blocked, dist))
    decreases |edges| - i
  {
    if i < |edges| {
      RelaxEdgeRanked(nodes, s, current, edges[i], goal, mode, blocked, dist, t, clock);
      var s1 := RelaxEdge(nodes, s, current, edges[i], goal, mode, blocked, dist);
      RelaxFromRanked(nodes, s1, current, edges, i + 1, goal, mode, blocked, dist,
                      if s1 == s then t else t[edges[i].to := clock], clock + 1);
    }
  }

  /** With no negative speed, expanding a node keeps the predecessor links acyclic. */
  lemma {:induction false} ExpandAcyclic(nodes: map<Key, Node>, start: Key, goal: Key, mode: Mode, blocked: set<Road>, dist: (Coord, Coord) -> real,
                      s: SearchState, current: Key)
    requires Sound(nodes, start, goal, mode, blocked, s) && Acyclic(s)
    requires current in s.open && goal in nodes && EdgesOk(nodes) && NoNegativeSpeeds(nodes, mode)
    ensures var s1 := s.(open := Without(s.open, current));
      Acyclic(RelaxFrom(nodes, s1, current, nodes[current].edges, 0, goal, mode, blocked, dist))
  {
    var t, clock :| Ranked(s.g, s.cameFrom, t, clock);
    var s1 := s.(open := Without(s.open, current));
    assert s1.g == s.g && s1.cameFrom == s.cameFrom;
    RelaxFromRanked(nodes, s1, current, nodes[current].edges, 0, goal, mode, blocked, dist, t, clock);
  }

  // ---------------------------------------------------------------------------
  // The methods

  /** `path.reverse()`. */
  function Reverse(s: seq<Key>): (r: seq<Key>)
    ensures |r| == |s| && forall i :: 0 <= i < |s| ==> r[i] == s[|s| - 1 - i]
  {
    if |s| == 0 then [] else Reverse(s[1..]) + [s[0]]
  }

  /**
   * The scan of the open set: the first key, in insertion order, whose `f`
   * is strictly below every earlier one, i.e. the first minimum.
   */
  method SelectMin(open: seq<Key>, f: map<Key, real>) returns (current: Key, ghost idx: nat)
    requires |open| > 0 && forall i :: 0 <= i < |open| ==> open[i] in f
    ensures idx < |open| && open[idx] == current
    ensures forall i :: 0 <= i < |open| ==> f[current] <= f[open[i]]
    ensures forall i :: 0 <= i < idx ==> f[open[i]] > f[current]
  {
    current, idx := open[0], 0;
    var min := f[open[0]];
    var i := 1;
    while i < |open|
      invariant 1 <= i <= |open| && idx < i && open[idx] == current && min == f[current]
      invariant forall j :: 0 <= j < i ==> min <= f[open[j]]
      invariant forall j :: 0 <= j < idx ==> f[open[j]] > min
    {
      if f[open[i]] < min {
        min := f[open[i]];
        current, idx := open[i], i;
      }
      i := i + 1;
    }
  }

  /**
   * The edge loop of `aStar` for the expanded node `current`; the road's
   * `isBlocked` flag is read as the search goes.
   */
  method Relax(nodes: map<Key, Node>, s: SearchState, current: Key, goal: Key, mode: Mode,
               ghost blocked: set<Road>, dist: (Coord, Coord) -> real) returns (r: SearchState)
    requires current in s.g && current in nodes && goal in nodes
    requires forall e :: e in nodes[current].edges ==> e.to in nodes && (e.road.isBlocked <==> e.road in blocked)
    ensures r == RelaxFrom(nodes, s, current, nodes[current].edges, 0, goal, mode, blocked, dist)
  {
    var edges := nodes[current].edges;
    r := s;
    var i := 0;
    while i < |edges|
      invariant i <= |edges| && current in r.g
      invariant RelaxFrom(nodes, r, current, edges, i, goal, mode, blocked, dist) == RelaxFrom(nodes, s, current, edges, 0, goal, mode, blocked, dist)
    {
      assert edges[i] in edges;
      ghost var before := r;
      r := RelaxOne(nodes, r, current, edges[i], goal, mode, blocked, dist);
      RelaxFromStep(nodes, before, current, edges, i, goal, mode, blocked, dist);
      i := i + 1;
    }
  }

  /** One turn of the edge loop of `aStar`, reading the road's `isBlocked`, computes `RelaxEdge`. */
  method RelaxOne(nodes: map<Key, Node>, s: SearchState, current: Key, e: Edge, goal: Key, mode: Mode,
                  ghost blocked: set<Road>, dist: (Coord, Coord) -> real) returns (r: SearchState)
    requires current in s.g && e.to in nodes && goal in nodes && (e.road.isBlocked <==> e.road in blocked)
    ensures r == RelaxEdge(nodes, s, current, e, goal, mode, blocked, dist)
  {
    r := s;
    if e.road.isBlocked {
      return;
    }
    var time := EdgeMinutes(e, mode);
    if time.None? {
      return;
    }
    var tentative := s.g[current] + time.value;
    if e.to !in s.g || tentative < s.g[e.to] {
      var open := if e.to in s.open then s.open else s.open + [e.to];
      r := SearchState(open, s.g[e.to := tentative],
                       s.f[e.to := tentative + Heuristic(nodes, e.to, goal, dist)],
                       s.cameFrom[e.to := current]);
    }
  }

  /** The keys on `path`. */
  ghost function Elems(path: seq<Key>): set<Key>
  {
    set x | x in path
  }

  /** Each key of `path` but the last has the next one as predecessor. */
  ghost predicate Chain(cameFrom: map<Key, Key>, path: seq<Key>)
  {
    forall m :: 0 <= m < |path| - 1 ==> path[m] in cameFrom && cameFrom[path[m]] == path[m + 1]
  }

  /** `c` comes strictly before every key of `path` but the last. */
  ghost predicate AllAfter(s: SearchState, t: map<Key, nat>, c: Key, path: seq<Key>)
  {
    forall m :: 0 <= m < |path| - 1 ==> Before(s.g, t, c, path[m])
  }

  /**
   * One step back along ranked links reaches a key strictly before the
   * whole path so far, hence not on it.
   */
  lemma {:induction false} BackStep(s: SearchState, t: map<Key, nat>, clock: nat, path: seq<Key>, next: Key)
    requires Ranked(s.g, s.cameFrom, t, clock) && |path| > 0 && path[|path| - 1] in s.cameFrom
    requires next == s.cameFrom[path[|path| - 1]] && AllAfter(s, t, path[|path| - 1], path)
    ensures next !in path && AllAfter(s, t, next, path + [next])
  {
    var current := path[|path| - 1];
    assert Before(s.g, t, next, current);
    forall m | 0 <= m < |path| ensures Before(s.g, t, next, path[m]) {
      if m < |path| - 1 {
        BeforeTransitive(s.g, t, next, current, path[m]);
      }
    }
  }

  /** A fresh predecessor extends the chain and keeps it free of repeats. */
  lemma {:induction false} ChainSnoc(cameFrom: map<Key, Key>, path: seq<Key>, next: Key)
    requires Chain(cameFrom, path) && Distinct(path) && |path| > 0
    requires path[|path| - 1] in cameFrom && cameFrom[path[|path| - 1]] == next && next !in path
    ensures Chain(cameFrom, path + [next]) && Distinct(path + [next])
    ensures (path + [next])[0] == path[0] && (path + [next])[|path|] == next
  {
  }

  /** Adding a new finite key to the path leaves fewer finite keys off it. */
  lemma {:induction false} FewerLeft(keys: set<Key>, path: seq<Key>, next: Key)
    requires Elems(path) <= keys && next in keys && next !in path
    ensures Elems(path + [next]) <= keys
    ensures |keys - Elems(path + [next])| < |keys - Elems(path)|
  {
    assert Elems(path + [next]) == Elems(path) + {next};
    assert keys - Elems(path + [next]) < keys - Elems(path);
  }

  /**
   * A chain of predecessor links from `goal` back to a key without one,
   * reversed, is a route from `start` to `goal` without repeated keys.
   */
  lemma {:induction false} ChainRoute(nodes: map<Key, Node>, start: Key, goal: Key, mode: Mode, blocked: set<Road>, s: SearchState, path: seq<Key>)
    requires LinksOk(nodes, mode, blocked, s) && Rooted(start, s) && s.g.Keys <= nodes.Keys
    requires |path| > 0 && path[0] == goal && path[|path| - 1] !in s.cameFrom && Chain(s.cameFrom, path) && Distinct(path)
    requires Elems(path) <= s.g.Keys
    ensures IsRoute(nodes, Reverse(path), start, goal, mode, blocked) && Distinct(Reverse(path))
    ensures goal !in s.cameFrom ==> Reverse(path) == [goal]
  {
    var route, n := Reverse(path), |path|;
    ReverseDistinct(path);
    ChainLinks(nodes, mode, blocked, s, path);
    ReverseLinks(nodes, mode, blocked, path);
    ReverseWithin(path, nodes.Keys);
    assert path[n - 1] in Elems(path);
    assert route[0] == path[n - 1] == start;
    if goal !in s.cameFrom {
      assert n == 1;
      assert route == [goal];
    }
  }

  /** Each key of a chain is reached from the next one along a usable edge. */
  lemma {:induction false} ChainLinks(nodes: map<Key, Node>, mode: Mode, blocked: set<Road>, s: SearchState, path: seq<Key>)
    requires LinksOk(nodes, mode, blocked, s) && Chain(s.cameFrom, path)
    ensures forall m :: 0 <= m < |path| - 1 ==> Link(nodes, path[m + 1], path[m], mode, blocked)
  {
    forall m | 0 <= m < |path| - 1 ensures Link(nodes, path[m + 1], path[m], mode, blocked) {
      assert path[m] in s.cameFrom && s.cameFrom[path[m]] == path[m + 1];
    }
  }

  /** Links from each key to the one before it become links forward along the reversed path. */
  lemma {:induction false} ReverseLinks(nodes: map<Key, Node>, mode: Mode, blocked: set<Road>, path: seq<Key>)
    requires forall m :: 0 <= m < |path| - 1 ==> Link(nodes, path[m + 1], path[m], mode, blocked)
    ensures var route := Reverse(path);
      forall i :: 0 <= i < |route| - 1 ==> Link(nodes, route[i], route[i + 1], mode, blocked)
  {
    var route, n := Reverse(path), |path|;
    forall i | 0 <= i < n - 1 ensures Link(nodes, route[i], route[i + 1], mode, blocked) {
      var m := n - 2 - i;
      assert route[i] == path[m + 1] && route[i + 1] == path[m];
    }
  }

  /** The reversed path has its keys among `keys` when the path does. */
  lemma {:induction false} ReverseWithin(path: seq<Key>, keys: set<Key>)
    requires Elems(path) <= keys
    ensures var route := Reverse(path);
      forall i :: 0 <= i < |route| ==> route[i] in keys
  {
    var route, n := Reverse(path), |path|;
    forall i | 0 <= i < n ensures route[i] in keys {
      assert route[i] == path[n - 1 - i] && path[n - 1 - i] in Elems(path);
    }
  }

  /** Reversing a path without repeats gives one without repeats. */
  lemma {:induction false} ReverseDistinct(path: seq<Key>)
    requires Distinct(path)
    ensures Distinct(Reverse(path))
  {
    var route, n := Reverse(path), |path|;
    forall i, j | 0 <= i < j < n ensures route[i] != route[j] {
      assert route[i] == path[n - 1 - i] && route[j] == path[n - 1 - j];
    }
  }

  /**
   * The walk of `reconstruct`: from `goal`, append the predecessor of the
   * last key until a key without one. A predecessor already on the path
   * (where the JavaScript `reconstruct` would never stop) gives `None`; ranked links never
   * lead back onto the path.
   */
  method FollowLinks(goal: Key, s: SearchState, ghost ranked: bool) returns (p: Option<seq<Key>>)
    requires goal in s.g && forall v :: v in s.cameFrom ==> s.cameFrom[v] in s.g
    requires ranked ==> Acyclic(s)
    ensures p.Some? ==>
      && |p.value| > 0 && p.value[0] == goal && p.value[|p.value| - 1] !in s.cameFrom
      && Chain(s.cameFrom, p.value) && Distinct(p.value) && Elems(p.value) <= s.g.Keys
    ensures ranked ==> p.Some?
    ensures goal !in s.cameFrom ==> p == Some([goal])
  {
    ghost var t: map<Key, nat>, clock: nat := map[], 0;
    if ranked {
      t, clock :| Ranked(s.g, s.cameFrom, t, clock);
    }
    var path := [goal];
    var current := goal;
    while current in s.cameFrom
      invariant |path| > 0 && path[0] == goal && path[|path| - 1] == current
      invariant Elems(path) <= s.g.Keys
      invariant Distinct(path) && Chain(s.cameFrom, path)
      invariant ranked ==> AllAfter(s, t, current, path)
      invariant goal !in s.cameFrom ==> path == [goal]
      decreases |s.g.Keys - Elems(path)|
    {
      var next := s.cameFrom[current];
      if ranked {
        BackStep(s, t, clock, path, next);
      }
      if next in path {
        return None;
      }
      ChainSnoc(s.cameFrom, path, next);
      FewerLeft(s.g.Keys, path, next);
      path := path + [next];
      current := next;
    }
    p := Some(path);
  }

  /**
   * `reconstruct`: follow the predecessor links back from `goal`, then
   * reverse. A link back to a key already on the path (where the JavaScript
   * `reconstruct` would never stop) gives `None`.
   */
  method Reconstruct(ghost nodes: map<Key, Node>, ghost start: Key, goal: Key, ghost mode: Mode, ghost blocked: set<Road>,
                     s: SearchState) returns (p: Option<seq<Key>>)
    requires LinksOk(nodes, mode, blocked, s) && Rooted(start, s) && s.g.Keys <= nodes.Keys && goal in s.g
    ensures p.Some? ==> IsRoute(nodes, p.value, start, goal, mode, blocked) && Distinct(p.value)
    ensures Acyclic(s) ==> p.Some?
    ensures goal !in s.cameFrom ==> p == Some([goal])
  {
    var path := FollowLinks(goal, s, Acyclic(s));
    if path.None? {
      return None;
    }
    ChainRoute(nodes, start, goal, mode, blocked, s, path.value);
    p := Some(Reverse(path.value));
  }

  /**
   * One expansion of `aStar`: `open.delete(current)` and the edge loop. It
   * keeps the search invariants, and the predecessor links stay acyclic
   * when no speed is negative.
   */
  method Expand(nodes: map<Key, Node>, start: Key, goal: Key, mode: Mode, ghost blocked: set<Road>, dist: (Coord, Coord) -> real,
                s: SearchState, current: Key) returns (r: SearchState)
    requires Sound(nodes, start, goal, mode, blocked, s) && ClosedBut(nodes, mode, blocked, s, None)
    requires current in s.open && current != goal && goal in nodes && EdgesOk(nodes)
    requires forall k, e {:trigger e in nodes[k].edges} :: k in nodes && e in nodes[k].edges ==> (e.road.isBlocked <==> e.road in blocked)
    ensures r == RelaxFrom(nodes, s.(open := Without(s.open, current)), current, nodes[current].edges, 0, goal, mode, blocked, dist)
    ensures Sound(nodes, start, goal, mode, blocked, r) && ClosedBut(nodes, mode, blocked, r, None)
    ensures NoNegativeSpeeds(nodes, mode) && Acyclic(s) ==> Acyclic(r)
  {
    ExpandSound(nodes, start, goal, mode, blocked, dist, s, current);
    if NoNegativeSpeeds(nodes, mode) && Acyclic(s) {
      ExpandAcyclic(nodes, start, goal, mode, blocked, dist, s, current);
    }
    r := Relax(nodes, s.(open := Without(s.open, current)), current, goal, mode, blocked, dist);
  }

  /**
   * The main loop of `aStar` over the node map, with at most `fuel`
   * expansions.
   */
  method SearchLoop(nodes: map<Key, Node>, start: Key, goal: Key, mode: Mode, ghost blocked: set<Road>,
                    dist: (Coord, Coord) -> real, fuel: nat) returns (r: SearchResult)
    requires start in nodes && goal in nodes && EdgesOk(nodes)
    requires forall k, e {:trigger e in nodes[k].edges} :: k in nodes && e in nodes[k].edges ==> (e.road.isBlocked <==> e.road in blocked)
    ensures r.Found? ==> IsRoute(nodes, r.path, start, goal, mode, blocked) && Distinct(r.path)
    ensures r.NoPath? ==> forall p :: !IsRoute(nodes, p, start, goal, mode, blocked)
    ensures NoNegativeSpeeds(nodes, mode) ==> !r.Loops?
    ensures start == goal && fuel > 0 ==> r == Found([start])
  {
    var s := SearchState([start], map[start := 0.0], map[start := Heuristic(nodes, start, goal, dist)], map[]);
    assert Ranked(s.g, s.cameFrom, map[start := 0], 1);
    var n: nat := fuel;
    while |s.open| > 0
      invariant n <= fuel && (start == goal && fuel > 0 ==> n == fuel)
      invariant Sound(nodes, start, goal, mode, blocked, s) && ClosedBut(nodes, mode, blocked, s, None)
      invariant NoNegativeSpeeds(nodes, mode) ==> Acyclic(s)
      invariant n == fuel ==> s.open == [start] && s.cameFrom == map[]
      decreases n
    {
      if n == 0 {
        return OutOfFuel;
      }
      var current, idx := SelectMin(s.open, s.f);
      if current == goal {
        var p := Reconstruct(nodes, start, goal, mode, blocked, s);
        if p.None? {
          return Loops;
        }
        return Found(p.value);
      }
      n := n - 1;
      s := Expand(nodes, start, goal, mode, blocked, dist, s, current);
    }
    ExhaustedNoRoute(nodes, start, goal, mode, blocked, s);
    return NoPath;
  }

  /**
   * `aStar(start, goal, mode)` with at most `fuel` expansions. A path it
   * finds is a route over usable edges without repeated nodes; `NoPath`
   * means no such route exists at all; with no negative speed the
   * predecessor links never loop; and `start == goal` gives `[start]`.
   */
  method AStar(graph: Graph, start: Key, goal: Key, mode: Mode, dist: (Coord, Coord) -> real, fuel: nat)
    returns (r: SearchResult)
    requires graph.Valid() && start in graph.nodes && goal in graph.nodes
    ensures r.Found? ==> IsRoute(graph.nodes, r.path, start, goal, mode, Blocked(graph)) && Distinct(r.path)
    ensures r.NoPath? ==> forall p :: !IsRoute(graph.nodes, p, start, goal, mode, Blocked(graph))
    ensures NoNegativeSpeeds(graph.nodes, mode) ==> !r.Loops?
    ensures start == goal && fuel > 0 ==> r == Found([start])
  {
    GraphFacts(graph);
    r := SearchLoop(graph.nodes, start, goal, mode, Blocked(graph), dist, fuel);
  }

  /** What a well-formed graph gives the search: closed edges, and `isBlocked` read as membership of `Blocked`. */
  lemma {:induction false} GraphFacts(graph: Graph)
    requires graph.Valid()
    ensures EdgesOk(graph.nodes)
    ensures forall k, e {:trigger e in graph.nodes[k].edges} :: k in graph.nodes && e in graph.nodes[k].edges ==>
      (e.road.isBlocked <==> e.road in Blocked(graph))
  {
  }

  /**
   * `findNearestNode(lat, lng)`: the node, in insertion order, with the
   * smallest distance to `c`, the first one on a tie; `None` exactly when
   * the graph is empty.
   */
  method FindNearestNode(graph: Graph, c: Coord, dist: (Coord, Coord) -> real) returns (r: Option<Key>)
    requires graph.Valid()
    ensures r.None? <==> |graph.nodes| == 0
    ensures r.Some? ==>
      && r.value in graph.nodes
      && (forall k :: k in graph.nodes ==> dist(c, graph.nodes[r.value].pos) <= dist(c, graph.nodes[k].pos))
    ensures r.Some? ==>
      exists i :: 0 <= i < |graph.order| && graph.order[i] == r.value &&
        forall j :: 0 <= j < i ==> dist(c, graph.nodes[graph.order[j]].pos) > dist(c, graph.nodes[r.value].pos)
  {
    var order := graph.order;
    var nodes := graph.nodes;
    r := None;
    var min := 0.0;
    ghost var idx := 0;
    var i := 0;
    while i < |order|
      invariant i <= |order|
      invariant r.None? <==> i == 0
      invariant r.Some? ==> idx < i && order[idx] == r.value && r.value in nodes && min == dist(c, nodes[r.value].pos)
      invariant r.Some? ==> forall j :: 0 <= j < i ==> min <= dist(c, nodes[order[j]].pos)
      invariant r.Some? ==> forall j :: 0 <= j < idx ==> dist(c, nodes[order[j]].pos) > min
    {
      var d := dist(c, nodes[order[i]].pos);
      if r.None? || d < min {
        min := d;
        r, idx := Some(order[i]), i;
      }
      i := i + 1;
    }
    if r.Some? {
      forall k | k in nodes ensures min <= dist(c, nodes[k].pos) {
        var j :| 0 <= j < |order| && order[j] == k;
      }
    } else {
      assert nodes.Keys == {};
    }
  }
}
