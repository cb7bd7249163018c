# Routing engine of the flood-aware city router, in Dafny

The browser application routes cars, bikes and pedestrians through a 2 km
disc of OpenStreetMap roads, avoiding roads the user has blocked by clicking
on them and a road that a flood server reports as submerged. This project
models its routing engine (`app.js`) and proves properties of it:

- **Speeds** (`speed.dfy`, module `Speed`): the per-mode speed table,
  `parseOneWay`, `getSpeed` (a car's readable `maxspeed` first, then the table,
  then 10 km/h) and the minutes `(distanceKm / speed) * 60` of one edge. A zero
  speed yields Infinity or NaN in JavaScript; here that time is `None`.
- **Node identity** (`geometry.dfy`, module `Geometry`): `nodeKey` rounds
  both coordinates to six decimals; a key is the pair of rounded values in
  whole micro-degrees.
- **Graph builder** (`graph.dfy`, module `RoadGraph`): the road record (a
  class, since its `isBlocked` flag changes in place and every edge of the road
  shares it), the node map with its insertion order, `addNode`, `addEdge`, and
  the segment loop that emits one or two directed edges per pair of
  consecutive points according to the road's one-way mode. The `Graph` class
  performs the updates in place; each method is proved equal to a function
  on the graph value (`InsertNode`, `AppendEdge`, `EmitSegment`, `BuildRoad`),
  and the lemmas about those functions state idempotence, exact edge
  emission, completeness, soundness and closure of the edge set.
- **Blocking registry** (`blocking.dfy`, module `Blocking`): the
  `blockedEdges` set next to the layer of roads, the click toggle,
  `setRoadBlockedByOSM`, the "clear" button and the flood-poll transition.
  The `Registry` class performs them in place and is proved equal to
  functions on a `LayerView` value, about which consistency (a road is blocked
  exactly when its id is in the set), idempotence and the flood state machine
  are proved.
- **Loader** (`loader.dfy`, module `Loader`): the `forEach` over the
  Overpass answer: ways without geometry or with fewer than two points inside
  the radius are skipped, every other way becomes a fresh unblocked road on
  the layer, and its segments are built into the graph.
- **Search** (`search.dfy`, module `Search`): `aStar`, `reconstruct` and
  `findNearestNode`. The search state keeps only finite `g`/`f` entries (a
  missing key is the `Infinity` every node starts with) and the open set in
  insertion order. The edge loop is specified by `RelaxFrom`; a path found is
  a route over unblocked edges with a non-zero speed and no repeated node, an
  empty open set means no such route exists, and with no negative speed the
  predecessor links have no cycle, so `reconstruct` ends.
- **Route metrics** (`metrics.dfy`, module `Metrics`): `calculateRouteInfo`
  sums the length and minutes of the first edge from each key of a path to
  the next. That edge is chosen without regard to blocking or to the edge the
  search followed, so where two roads join the same pair of nodes the report
  can describe a different road than the route (`FirstEdgeIgnoresBlocking`).

A flood answer that arrives before the roads are loaded switches the flood
mode but finds no road to block (`FloodChange` only promises the block when
the flood way is on the layer), and later polls repeat the same answer and
change nothing (`FloodOnlyOnChange`); the model keeps this behaviour of
`checkFloodStatus`.

## Model

| member | source | states |
|---|---|---|
| Speed.ParseOneWay | app.js:142-147 | "yes" or "1" give forward only, "-1" backward only, and anything else (absent, empty, other text) both ways, each as an if-and-only-if |
| Speed.TableSpeed | app.js:13-41 | every entry of the speed table lies between 4 and 80 km/h |
| Speed.ClassSpeed | app.js:159 | the table lookup with the 10 km/h fallback is always positive |
| Speed.TravelMinutes | app.js:299-300 | the time is undefined exactly at speed 0; otherwise time times speed equals distance times 60, and it is non-negative for a positive speed and non-negative distance |
| Speed.SpeedSelection | app.js:149-160 | a car with a readable maxspeed gets that number; otherwise the table entry for mode and classification, or 10 when there is none, which is positive; non-car modes are always positive |
| Speed.MaxspeedOverridesTable | app.js:153-159 | a maxspeed of 45 overrides the residential 30 km/h for cars only; bikes keep 15 |
| Speed.GetSpeed | app.js:149-160 | every speed is positive except a car's explicit `maxspeed`, which is taken as written |
| Geometry.Round6 | app.js:112-114 | the rounded micro-degree value is within half a unit of the coordinate and keeps its sign; an exact half is rounded away from zero, as `toFixed` does |
| Geometry.NodeKey | app.js:112-114 | a node key lies within half a micro-degree of the coordinate in both axes |
| Geometry.Round6Symmetric | app.js:113 | rounding is symmetric about zero: mirrored coordinates get opposite values |
| RoadGraph.Road.constructor | app.js:192-195 | a new road carries the way's id and tags, the one-way mode parsed from its tags, and is not blocked |
| RoadGraph.InsertNode | app.js:116-122 | the keys after `addNode` are the old keys plus the coordinate's key |
| RoadGraph.AppendEdge | app.js:124-130 | `addEdge` leaves the set of keys unchanged |
| RoadGraph.InsertNodeIdempotent | app.js:116-122 | a second `addNode` with the same key changes nothing; the node count grows by one exactly when the key is new |
| RoadGraph.SegmentEmission | app.js:224-231 | by the raw oneway tag: "yes"/"1" append only k1->k2 to k1, "-1" only k2->k1 to k2, anything else both, with the same length and road, and every other node unchanged |
| RoadGraph.EmitSegmentEdges | app.js:213-231 | one segment adds both endpoints and appends exactly the edges its one-way mode calls for to each node's list, keeping positions and order |
| RoadGraph.EmitSegmentExtends | app.js:213-231 | one segment keeps every node, position and edge list (as a prefix) and adds exactly the two endpoint keys |
| RoadGraph.EmitSegmentSound | app.js:224-231 | after a segment, every edge is an old one or one the segment emits |
| RoadGraph.EmitSegmentComplete | app.js:224-231 | after a segment, both endpoints are nodes holding the edges the one-way mode calls for |
| RoadGraph.BuildKeepsExisting | app.js:213-232 | the segment loop keeps every node, position and edge-list prefix |
| RoadGraph.BuildKeys | app.js:213-218 | every node after the loop is old or the key of one of the road's points |
| RoadGraph.BuildEmitsSegment | app.js:213-231 | every segment of the road is present after the loop with its emitted edges |
| RoadGraph.BuildOnlyEmits | app.js:213-231 | every edge after the loop is old or emitted by one of the road's segments |
| RoadGraph.BuildEdgesOfNewRoad | app.js:213-231 | for a road new to the graph, a node holds an edge of that road exactly when one of its segments emits it |
| RoadGraph.BuildClosed | app.js:213-231 | after the loop every edge leads to a node of the graph, refers to a known road and has a non-negative length |
| RoadGraph.BuildOrder | app.js:116-122 | the insertion order keeps listing every key exactly once |
| RoadGraph.Graph.constructor | app.js:108-110 | the graph starts empty and well formed |
| RoadGraph.Graph.AddNode | app.js:116-122 | returns the coordinate's key, which is then a node, the graph becomes `InsertNode` of the old one and stays well formed |
| RoadGraph.Graph.AddEdge | app.js:124-130 | the graph becomes the old one with exactly one edge pushed onto the list of `from` |
| RoadGraph.Graph.AddSegment | app.js:214-231 | one turn of the build loop makes the graph `EmitSegment` of the old one |
| RoadGraph.Graph.AddRoad | app.js:213-232 | the build loop makes the graph `BuildRoad` of the old one and keeps it well formed with the road added to its roads |
| Blocking.SetByOSMKeepsGood | app.js:454-467 | `setRoadBlockedByOSM` keeps the registry consistent for any id and flag |
| Blocking.SetByOSMEffect | app.js:454-467 | every road with the id gets the flag, the id is in the set exactly when the flag is set (if such a road exists), and every other road and id is unchanged |
| Blocking.SetByOSMIdempotent | app.js:454-467 | applying `setRoadBlockedByOSM(id, b)` twice equals applying it once |
| Blocking.ToggleKeepsGood | app.js:197-208 | a click keeps the registry consistent |
| Blocking.ToggleFlips | app.js:197-208 | a click flips the road's flag and its id's membership and leaves every other road alone |
| Blocking.ToggleTwice | app.js:197-208 | two clicks on the same road restore the registry |
| Blocking.ClearedGood | app.js:513-520 | "clear" leaves the set empty, every road unblocked with its id kept, the registry consistent, and is idempotent |
| Blocking.ClearedUnblocksEach | app.js:513-520 | unblocking a blocked id right before "clear" makes no difference |
| Blocking.FloodOnlyOnChange | app.js:488-498 | a poll whose answer equals the current mode changes nothing; otherwise the mode takes the answer |
| Blocking.FloodIdempotent | app.js:488-498 | the same answer polled twice has the effect of one poll |
| Blocking.FloodChange | app.js:488-503 | a change blocks (flood) or unblocks (recession) the loaded flood way, keeps the registry consistent, and shows the notice exactly when the flood begins |
| Blocking.Registry.constructor | app.js:77 | the registry starts with no road, an empty set and no flood |
| Blocking.Registry.AddToLayer | app.js:187-195 | an unblocked road with a new id is appended and the registry stays consistent |
| Blocking.Registry.Toggle | app.js:197-208 | the click handler makes the registry `ToggleAt` of the old one and keeps it consistent |
| Blocking.Registry.SetRoadBlockedByOSM | app.js:454-467 | the loop over the layer makes the registry `SetByOSM` of the old one and keeps it consistent |
| Blocking.Registry.ClearBlock | app.js:513-520 | the handler makes the registry `Cleared` of the old one and keeps it consistent |
| Blocking.Registry.CheckFloodStatus | app.js:485-498 | one poll makes the registry and flood flags `FloodStep` of the old ones and keeps the registry consistent |
| Blocking.Registry.Acknowledge | app.js:475-478 | closing the notice sets the acknowledgement, hides the notice, changes no blocking and keeps the registry consistent |
| Loader.KeepInside | app.js:181-183 | the kept points are exactly the points inside the radius, and no more than the input |
| Loader.KeepInsideAppend | app.js:181-183 | filtering a concatenation is filtering each part, in order |
| Loader.KeepInsideAll | app.js:181-183 | a polyline wholly inside the radius is kept whole, in order and with repeated points |
| Loader.RoadPointsSpec | app.js:179-185 | a way is kept exactly when it has a geometry with at least two points inside the radius; its polyline has two or more points, all from its geometry and inside |
| Loader.AcceptedSpec | app.js:178-185 | the accepted list holds only ways of the answer with their polylines, and every kept way appears in it |
| Loader.AcceptedAppend | app.js:178-185 | the accepted list of two answers one after the other is their lists one after the other (answer order kept) |
| Loader.AcceptedOne | app.js:179-185 | one way gives one entry with its polyline when kept and none when skipped |
| Loader.SharedNode | app.js:213-231 | two roads with points rounding to the same key meet at one node, both segments are present, and the node holds each road's forward edge when that road's one-way mode allows it |
| Loader.LoadedSegmentsPresent | app.js:178-232 | after loading, every segment of every loaded road is in the graph with the edges its one-way mode calls for |
| Loader.LoadWay | app.js:179-232 | one way is skipped exactly when it has no polyline; otherwise a fresh unblocked road with the way's id and tags, and the one-way mode parsed from those tags, is appended to the layer and its segments built into the graph |
| Loader.LoadNext | app.js:178-233 | one turn of the loop keeps the new roads made, in order, from the ways accepted so far (id, tags, one-way mode parsed from the tags) and the graph equal to loading them all |
| Loader.LoadOSMRoads | app.js:178-233 | the new roads match the accepted ways in order (id, tags, one-way mode parsed from the tags) and are unblocked, the old layer is kept as a prefix, the set is unchanged, and the graph is the old one with every new road built in |
| Search.RelaxEdge | app.js:296-308 | a relaxation step never loses a finite `g` entry |
| Search.RelaxFrom | app.js:296-309 | the edge loop never loses a finite `g` entry |
| Search.RelaxEdgeEffect | app.js:297-308 | a blocked or zero-speed edge changes nothing; any change lowers (or makes finite) the target's `g` to `g[current]` plus the edge time, records `current` as its predecessor and opens it |
| Search.RelaxFromDecreases | app.js:301-306 | over the edge loop, `g` values only decrease and no key loses its value |
| Search.RelaxFromCovers | app.js:296-309 | after the edge loop the target of every usable edge has a finite `g` |
| Search.ExpandSound | app.js:294-309 | expanding a node keeps the search invariants, and every closed finite key has its usable edges explored |
| Search.Without | app.js:294 | `open.delete` removes exactly that key and keeps the rest distinct |
| Search.WithoutAbsent | app.js:294 | deleting a key that is not open changes nothing |
| Search.WithoutAt | app.js:294 | deleting the key at position `i` of an open set without repeats closes the gap, the rest in order |
| Search.HeuristicBounds | app.js:243-249 | the estimate is non-negative for a non-negative distance and zero at the goal itself |
| Search.RelaxEdgeScore | app.js:303-306 | a relaxation gives the reached key the priority `g + heuristic`, never below its `g` for non-negative distances and equal to it at the goal |
| Search.ExhaustedNoRoute | app.js:282-311 | once the open set is empty, no route from start to goal exists |
| Search.ExpandAcyclic | app.js:294-309 | with no negative speed, an expansion keeps the predecessor links acyclic |
| Search.Reverse | app.js:320 | `reverse` puts element `i` at position `n - 1 - i` |
| Search.SelectMin | app.js:283-290 | the selected key is open, has minimal `f`, and every earlier open key has a strictly larger `f` (first minimum wins) |
| Search.Relax | app.js:296-309 | the edge loop reading each road's `isBlocked` computes `RelaxFrom` |
| Search.RelaxOne | app.js:297-308 | one turn of the edge loop, reading the road's `isBlocked`, computes `RelaxEdge` |
| Search.FollowLinks | app.js:315-318 | the walk back from the goal ends at a key without predecessor, each key's predecessor is the next one, no key repeats; with ranked links it always ends; a goal without predecessor gives `[goal]` |
| Search.Reconstruct | app.js:314-321 | a reconstructed path is a route from start to goal without repeats; with acyclic links one is always produced; a goal without predecessor gives `[goal]` |
| Search.Expand | app.js:294-309 | one expansion computes the edge loop after `open.delete`, keeps the invariants, and keeps the links acyclic when no speed is negative |
| Search.SearchLoop | app.js:282-311 | a found path is a route over unblocked non-zero-speed edges without repeats; `NoPath` means no route exists; with no negative speed the links never loop; start equal to goal gives `[start]` |
| Search.AStar | app.js:268-311 | the same as `SearchLoop` over the graph's nodes and its currently blocked roads |
| Search.FindNearestNode | app.js:251-266 | `None` exactly on an empty graph; otherwise a node at minimum distance, the first such in insertion order |
| Metrics.FirstEdgeTo | app.js:349 | `find` returns `None` exactly when no edge leads to the key; otherwise the first edge in the list that does |
| Metrics.CalculateRouteInfo | app.js:340-363 | the accumulating loop returns the totals over all consecutive pairs |
| Metrics.ShortPathZero | app.js:341-344 | a path of zero or one key gives distance 0 and time 0 |
| Metrics.TotalsNonNegative | app.js:344-357 | the distance is never negative, and with only positive speeds the time is a finite non-negative number |
| Metrics.RouteHasEdges | app.js:348-350 | along a route over usable edges no pair is skipped |
| Metrics.ResidentialExample | app.js:340-363 | two 1 km residential edges take a car 2 km and 4 minutes |
| Metrics.FirstEdgeIgnoresBlocking | app.js:349-350 | the first edge to the next key is reported even when its road is blocked and the route used another road |

## Left out

- The Leaflet map, markers, polylines and their styles, the blocked-roads list (`updateBlockedList`), `drawRoute`, the route button and reset are user interface and are not modelled.
- The Overpass request and its JSON parsing: `LoadOSMRoads` takes the parsed ways as a parameter, with the `maxspeed` tag already read by `parseInt` (`Some(n)`, or `None` when absent, empty or not a number).
- `turf.distance` and `insideRadius` are floating-point geometry in a foreign library: segment lengths, the heuristic and distances to a clicked point come from a parameter `dist`, the radius test from a parameter `inside`.
- Floating point in general: lengths and times are exact reals; an Infinity or NaN time is `None`.
- `toFixed(6)` is modelled as rounding to whole micro-degrees; its string form is not, so the distinct JavaScript keys "-0.000000" and "0.000000" are one key here.
- A `highway` value that names an inherited object property (such as "constructor") finds no entry here and gets the fallback 10 km/h; in JavaScript the lookup returns that property.
- The flood server's HTTP round trip, the three-second timer and `server.py` are I/O: `CheckFloodStatus` takes the server's answer as a parameter. The popup's display itself is represented only by `ShowNotice`.
- Concurrency between the asynchronous loader and the flood poll: each operation is modelled as one atomic step.
- Search.AStar: the loop of `aStar` has no bound; here it runs at most `fuel` expansions and may end in `OutOfFuel`, so `start == goal` gives `[start]` only when `fuel > 0`, and no bound on the fuel needed is proved.
- Search.AStar: with a negative `maxspeed` the predecessor links can form a cycle, on which the JavaScript `reconstruct` never stops; the model reports `Loops` there instead of diverging.
- Search.AStar: shortest paths are not proved; the heuristic adds kilometres to minutes and is not admissible in general.
- Search.AStar: requires `start` and `goal` to be nodes; `aStar` fails on a missing node (the callers pass keys from `findNearestNode`).
- Metrics.CalculateRouteInfo: requires every key but the last to be a node, since `calculateRouteInfo` throws on a missing one.
- Loader.LoadOSMRoads: does not state that the appended roads are newly allocated objects; that is stated for each road by `Loader.LoadWay`, and the loop keeps only value facts (ids, tags, one-way modes, order) about the list.
- Loader.LoadOSMRoads: requires the ways of the answer to have distinct ids and none of them to be on the layer already (the loader runs once, and an Overpass answer lists each way once); the registry's consistency rests on distinct ids.
