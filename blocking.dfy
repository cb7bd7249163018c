/**
 * The blocking registry: the set `blockedEdges` of blocked OSM way ids kept
 * in step with the `isBlocked` flag of every road on the road layer, the
 * three operations that change it (a click on a road, `setRoadBlockedByOSM`
 * and the "clear" button) and the flood poll that drives one fixed way.
 *
 * The layer is first described as a value (`LayerView`) with one function
 * per operation; the `Registry` class performs the operations in place and
 * is proved to agree with those functions.
 */
module Blocking {
  import opened RoadGraph

  /** The OSM way that the flood server blocks and unblocks (Bach Dang street). */
  const FloodWay := 1279915923

  /** What the registry knows of one road on the layer. */
  datatype RoadFlag = RoadFlag(osmId: int, isBlocked: bool)

  /** The road layer in layer order, and the set `blockedEdges`. */
  datatype LayerView = LayerView(flags: seq<RoadFlag>, blocked: set<int>)

  /** The flood mode and whether the user dismissed the flood notice. */
  datatype FloodState = FloodState(isFloodMode: bool, floodAcknowledged: bool)

  /** A road on the layer has OSM id `id`. */
  predicate HasRoad(flags: seq<RoadFlag>, id: int)
  {
    exists i :: 0 <= i < |flags| && flags[i].osmId == id
  }

  /** Registry consistency: a road is blocked exactly when its id is in the set. */
  ghost predicate Consistent(v: LayerView)
  {
    forall i :: 0 <= i < |v.flags| ==> (v.flags[i].isBlocked <==> v.flags[i].osmId in v.blocked)
  }

  /** Only ids of roads on the layer are ever in the set. */
  ghost predicate OnlyLoaded(v: LayerView)
  {
    forall id :: id in v.blocked ==> HasRoad(v.flags, id)
  }

  /** No two roads on the layer share an OSM id (OSM way ids are unique within one response). */
  ghost predicate DistinctIds(flags: seq<RoadFlag>)
  {
    forall i, j :: 0 <= i < j < |flags| ==> flags[i].osmId != flags[j].osmId
  }

  /** The invariant the registry keeps. */
  ghost predicate Good(v: LayerView)
  {
    Consistent(v) && OnlyLoaded(v) && DistinctIds(v.flags)
  }

  /** The flag of one road after `setRoadBlockedByOSM(id, b)`. */
  function SetFlag(f: RoadFlag, id: int, b: bool): RoadFlag
  {
    if f.osmId == id then RoadFlag(id, b) else f
  }

  /**
   * `setRoadBlockedByOSM(id, b)`: every road with that id gets `isBlocked = b`
   * and, for each such road, the id is added to or deleted from the set; with
   * no such road nothing changes.
   */
  function SetByOSM(v: LayerView, id: int, b: bool): LayerView
  {
    LayerView(
      seq(|v.flags|, i requires 0 <= i < |v.flags| => SetFlag(v.flags[i], id, b)),
      if !HasRoad(v.flags, id) then v.blocked
      else if b then v.blocked + {id}
      else v.blocked - {id})
  }

  /** A click on road `i`: its flag flips and its id is added or deleted to match. */
  function ToggleAt(v: LayerView, i: nat): LayerView
    requires i < |v.flags|
  {
    var f := v.flags[i];
    var nowBlocked := !f.isBlocked;
    LayerView(
      v.flags[i := RoadFlag(f.osmId, nowBlocked)],
      if nowBlocked then v.blocked + {f.osmId} else v.blocked - {f.osmId})
  }

  /** The "clear" button: every road unblocked and the set emptied. */
  function Cleared(v: LayerView): LayerView
  {
    LayerView(seq(|v.flags|, i requires 0 <= i < |v.flags| => RoadFlag(v.flags[i].osmId, false)), {})
  }

  /**
   * One answer of the flood server: when it differs from the current mode,
   * switch mode, reset the acknowledgement and block or unblock the flood
   * way; otherwise change nothing.
   */
  function FloodStep(v: LayerView, st: FloodState, shouldFlood: bool): (LayerView, FloodState)
  {
    if shouldFlood == st.isFloodMode then (v, st)
    else (SetByOSM(v, FloodWay, shouldFlood), FloodState(shouldFlood, false))
  }

  /** The flood notice is on screen in flood mode until the user dismisses it. */
  predicate ShowNotice(st: FloodState)
  {
    st.isFloodMode && !st.floodAcknowledged
  }

  /** `setRoadBlockedByOSM` keeps the registry consistent, whatever the id. */
  lemma {:induction false} SetByOSMKeepsGood(v: LayerView, id: int, b: bool)
    requires Good(v)
    ensures Good(SetByOSM(v, id, b))
  {
    var r := SetByOSM(v, id, b);
    forall x | x in r.blocked ensures HasRoad(r.flags, x) {
      var i :| 0 <= i < |v.flags| && v.flags[i].osmId == x;
      assert r.flags[i].osmId == x;
    }
  }

  /**
   * After `setRoadBlockedByOSM(id, b)` every road with that id has `isBlocked == b`,
   * the id is in the set exactly when `b` (if such a road exists), and every
   * other road and every other id keep their state.
   */
  lemma {:induction false} SetByOSMEffect(v: LayerView, id: int, b: bool)
    requires Consistent(v)
    ensures var r := SetByOSM(v, id, b);
      && |r.flags| == |v.flags|
      && (forall i :: 0 <= i < |v.flags| && v.flags[i].osmId == id ==> r.flags[i] == RoadFlag(id, b))
      && (forall i :: 0 <= i < |v.flags| && v.flags[i].osmId != id ==> r.flags[i] == v.flags[i])
      && (HasRoad(v.flags, id) ==> (id in r.blocked <==> b))
      && (forall x :: x != id ==> (x in r.blocked <==> x in v.blocked))
  {
  }

  /** `setRoadBlockedByOSM` is idempotent. */
  lemma {:induction false} SetByOSMIdempotent(v: LayerView, id: int, b: bool)
    ensures SetByOSM(SetByOSM(v, id, b), id, b) == SetByOSM(v, id, b)
  {
    var r := SetByOSM(v, id, b);
    if HasRoad(v.flags, id) {
      var i :| 0 <= i < |v.flags| && v.flags[i].osmId == id;
      assert r.flags[i].osmId == id;
    } else {
      forall i | 0 <= i < |r.flags| ensures r.flags[i].osmId != id {
        assert v.flags[i].osmId != id;
      }
    }
  }

  /** A click keeps the registry consistent (each road's id is its own). */
  lemma {:induction false} ToggleKeepsGood(v: LayerView, i: nat)
    requires i < |v.flags| && Good(v)
    ensures Good(ToggleAt(v, i))
  {
    var r := ToggleAt(v, i);
    forall x | x in r.blocked ensures HasRoad(r.flags, x) {
      var j :| 0 <= j < |v.flags| && v.flags[j].osmId == x;
      assert r.flags[j].osmId == x;
    }
  }

  /** A click blocks an unblocked road and unblocks a blocked one, and touches no other road. */
  lemma {:induction false} ToggleFlips(v: LayerView, i: nat)
    requires i < |v.flags| && Good(v)
    ensures var r := ToggleAt(v, i);
      && r.flags[i].isBlocked == !v.flags[i].isBlocked
      && (v.flags[i].osmId in r.blocked <==> v.flags[i].osmId !in v.blocked)
      && (forall j :: 0 <= j < |v.flags| && j != i ==> r.flags[j] == v.flags[j])
  {
  }

  /** Two clicks on the same road restore the registry. */
  lemma {:induction false} ToggleTwice(v: LayerView, i: nat)
    requires i < |v.flags| && Consistent(v)
    ensures ToggleAt(ToggleAt(v, i), i) == v
  {
    var f := v.flags[i];
    assert ToggleAt(ToggleAt(v, i), i).flags == v.flags;
    if f.isBlocked {
      assert f.osmId in v.blocked;
      assert v.blocked - {f.osmId} + {f.osmId} == v.blocked;
    } else {
      assert f.osmId !in v.blocked;
      assert v.blocked + {f.osmId} - {f.osmId} == v.blocked;
    }
  }

  /** "Clear" leaves a consistent registry with no road blocked, and a second press changes nothing. */
  lemma {:induction false} ClearedGood(v: LayerView)
    requires DistinctIds(v.flags)
    ensures var r := Cleared(v);
      && Good(r) && r.blocked == {}
      && (forall i :: 0 <= i < |r.flags| ==> !r.flags[i].isBlocked && r.flags[i].osmId == v.flags[i].osmId)
      && Cleared(r) == r
  {
  }

  /** Unblocking a blocked id just before pressing "clear" makes no difference to the result. */
  lemma {:induction false} ClearedUnblocksEach(v: LayerView, id: int)
    requires Consistent(v) && id in v.blocked
    ensures Cleared(SetByOSM(v, id, false)) == Cleared(v)
  {
  }

  /** The flood poll changes nothing unless the server's answer differs from the current mode. */
  lemma {:induction false} FloodOnlyOnChange(v: LayerView, st: FloodState, shouldFlood: bool)
    ensures shouldFlood == st.isFloodMode ==> FloodStep(v, st, shouldFlood) == (v, st)
    ensures shouldFlood != st.isFloodMode ==> FloodStep(v, st, shouldFlood).1.isFloodMode == shouldFlood
  {
  }

  /** Polling the same answer twice has the effect of polling it once. */
  lemma {:induction false} FloodIdempotent(v: LayerView, st: FloodState, shouldFlood: bool)
    ensures var (v1, st1) := FloodStep(v, st, shouldFlood);
      FloodStep(v1, st1, shouldFlood) == (v1, st1)
  {
  }

  /**
   * A change of flood state blocks (on flood) or unblocks (on recession) the
   * flood way when it is loaded, keeps the registry consistent, and shows the
   * notice exactly when the flood begins.
   */
  lemma {:induction false} FloodChange(v: LayerView, st: FloodState, shouldFlood: bool)
    requires Good(v) && shouldFlood != st.isFloodMode
    ensures var (v1, st1) := FloodStep(v, st, shouldFlood);
      && Good(v1)
      && (HasRoad(v.flags, FloodWay) ==> (FloodWay in v1.blocked <==> shouldFlood))
      && (forall i :: 0 <= i < |v1.flags| && v1.flags[i].osmId == FloodWay ==> v1.flags[i].isBlocked == shouldFlood)
      && ShowNotice(st1) == shouldFlood
  {
    SetByOSMKeepsGood(v, FloodWay, shouldFlood);
  }

  /** The flags of the roads `rs`, in order. */
  function Flags(rs: seq<Road>): seq<RoadFlag>
    reads rs
  {
    seq(|rs|, i requires 0 <= i < |rs| reads rs => RoadFlag(rs[i].osmId, rs[i].isBlocked))
  }

  /**
   * The road layer together with `blockedEdges` and the flood flags. Roads are
   * the shared road records of the graph, so a change of `isBlocked` here is
   * what the search sees.
   */
  class Registry {
    var roads: seq<Road>
    var blocked: set<int>
    var isFloodMode: bool
    var floodAcknowledged: bool

    /** The layer and `blockedEdges` as one value. */
    function View(): LayerView
      reads this, roads
    {
      LayerView(Flags(roads), blocked)
    }

    /** The flood flags as one value. */
    function State(): FloodState
      reads this
    {
      FloodState(isFloodMode, floodAcknowledged)
    }

    /** Registry consistency, ids of loaded roads only, distinct ids. */
    ghost predicate Valid()
      reads this, roads
    {
      Good(View())
    }

    constructor ()
      ensures Valid() && roads == [] && blocked == {} && State() == FloodState(false, false)
    {
      roads := [];
      blocked := {};
      isFloodMode := false;
      floodAcknowledged := false;
    }

    /** A new road joins the layer, unblocked (the layer `addTo` of the loader). */
    method AddToLayer(road: Road)
      requires Valid() && !road.isBlocked && !HasRoad(View().flags, road.osmId)
      modifies this
      ensures Valid() && roads == old(roads) + [road] && blocked == old(blocked) && State() == old(State())
    {
      ghost var v := View();
      roads := roads + [road];
      assert View().flags == v.flags + [RoadFlag(road.osmId, false)];
      forall x | x in blocked ensures HasRoad(View().flags, x) {
        var i :| 0 <= i < |v.flags| && v.flags[i].osmId == x;
        assert View().flags[i].osmId == x;
      }
    }

    /** A click on the road at layer position `i`. */
    method Toggle(i: nat)
      requires i < |roads| && Valid()
      modifies this, roads[i]
      ensures roads == old(roads) && State() == old(State())
      ensures View() == ToggleAt(old(View()), i) && Valid()
    {
      ghost var v := View();
      ToggleKeepsGood(v, i);
      var road := roads[i];
      road.isBlocked := !road.isBlocked;
      if road.isBlocked {
        blocked := blocked + {road.osmId};
      } else {
        blocked := blocked - {road.osmId};
      }
      forall j | 0 <= j < |roads| && j != i ensures roads[j] != road {
        assert old(View()).flags[j].osmId != old(View()).flags[i].osmId;
      }
    }

    /** `setRoadBlockedByOSM`: walk the layer and set every road with that id. */
    method SetRoadBlockedByOSM(id: int, b: bool)
      modifies this, roads
      ensures roads == old(roads) && State() == old(State())
      ensures View() == SetByOSM(old(View()), id, b)
      ensures old(Valid()) ==> Valid()
    {
      ghost var v := View();
      if Good(v) {
        SetByOSMKeepsGood(v, id, b);
      }
      var j := 0;
      while j < |roads|
        invariant j <= |roads| && roads == old(roads) && State() == old(State())
        invariant forall k :: 0 <= k < |roads| && roads[k].osmId == id && k < j ==> roads[k].isBlocked == b
        invariant forall k :: 0 <= k < |roads| && roads[k].osmId != id ==> roads[k].isBlocked == v.flags[k].isBlocked
        invariant blocked == if !HasRoad(v.flags[..j], id) then v.blocked else if b then v.blocked + {id} else v.blocked - {id}
      {
        var road := roads[j];
        if road.osmId == id {
          road.isBlocked := b;
          if b {
            blocked := blocked + {id};
          } else {
            blocked := blocked - {id};
          }
        }
        assert v.flags[..j + 1] == v.flags[..j] + [v.flags[j]];
        j := j + 1;
      }
      assert v.flags[..j] == v.flags;
    }

    /** The "clear" button. */
    method ClearBlock()
      modifies this, roads
      ensures roads == old(roads) && State() == old(State())
      ensures View() == Cleared(old(View()))
      ensures old(Valid()) ==> Valid()
    {
      ghost var v := View();
      if DistinctIds(v.flags) {
        ClearedGood(v);
      }
      var j := 0;
      while j < |roads|
        invariant j <= |roads| && roads == old(roads) && State() == old(State())
        invariant forall k :: 0 <= k < j ==> !roads[k].isBlocked
      {
        roads[j].isBlocked := false;
        j := j + 1;
      }
      blocked := {};
    }

    /** One poll of the flood server, whose answer is `shouldFlood`. */
    method CheckFloodStatus(shouldFlood: bool)
      modifies this, roads
      ensures roads == old(roads)
      ensures (View(), State()) == FloodStep(old(View()), old(State()), shouldFlood)
      ensures old(Valid()) ==> Valid()
    {
      if shouldFlood != isFloodMode {
        ghost var v := View();
        isFloodMode := shouldFlood;
        floodAcknowledged := false;
        assert View() == v;
        SetRoadBlockedByOSM(FloodWay, isFloodMode);
      }
    }

    /** The notice's close button. */
    method Acknowledge()
      modifies this
      ensures roads == old(roads) && blocked == old(blocked)
      ensures State() == FloodState(old(isFloodMode), true) && !ShowNotice(State())
      ensures old(Valid()) ==> Valid()
    {
      floodAcknowledged := true;
    }
  }
}
