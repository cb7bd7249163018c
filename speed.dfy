/**
 * The speed model of the router: the one-way tag, the per-mode speed table,
 * the speed chosen for a road, and the travel time of one edge.
 */
module Speed {
  import opened Wrappers

  /** The travel modes offered by the mode selector. */
  datatype Mode = Car | Bike | Foot

  /** One-way restriction of a road, derived from its `oneway` tag. */
  datatype OneWay = No | Forward | Backward

  /**
   * The tags of an OSM way that the router reads. `maxspeed` is the tag
   * already passed through `parseInt`: `Some(n)` when the tag is present
   * and `parseInt` reads the number `n`, `None` when the tag is absent,
   * empty or not a number.
   */
  datatype Tags = Tags(highway: Option<string>, oneway: Option<string>, maxspeed: Option<int>)

  /** The tags of a way that has none (`el.tags || {}`). */
  const NoTags := Tags(None, None, None)

  /** Speed used when the table has no entry for the mode and classification (km/h). */
  const FallbackSpeed := 10

  /** `parseOneWay`: "yes" and "1" mean forward only, "-1" backward only, anything else both ways. */
  function ParseOneWay(oneway: Option<string>): (r: OneWay)
    ensures r == Forward <==> oneway == Some("yes") || oneway == Some("1")
    ensures r == Backward <==> oneway == Some("-1")
    ensures r == No <==> oneway !in {Some("yes"), Some("1"), Some("-1")}
  {
    match oneway
    case None => No
    case Some(v) =>
      if v == "" then No
      else if v == "yes" || v == "1" then Forward
      else if v == "-1" then Backward
      else No
  }

  /** `SPEED_TABLE[mode][highway]` in km/h; `None` where the table has no entry. */
  function TableSpeed(mode: Mode, highway: string): (r: Option<int>)
    ensures r.Some? ==> 4 <= r.value <= 80
  {
    match mode
    case Car =>
      if highway == "motorway" then Some(80)
      else if highway == "trunk" then Some(70)
      else if highway == "primary" then Some(60)
      else if highway == "secondary" then Some(50)
      else if highway == "tertiary" then Some(40)
      else if highway == "residential" then Some(30)
      else if highway == "service" then Some(20)
      else if highway == "unclassified" then Some(40)
      else None
    case Bike =>
      if highway == "primary" then Some(20)
      else if highway == "secondary" then Some(18)
      else if highway == "tertiary" then Some(16)
      else if highway == "residential" then Some(15)
      else if highway == "service" then Some(12)
      else if highway == "cycleway" then Some(20)
      else if highway == "unclassified" then Some(15)
      else None
    case Foot =>
      if highway == "footway" then Some(5)
      else if highway == "pedestrian" then Some(5)
      else if highway == "path" then Some(5)
      else if highway == "residential" then Some(4)
      else if highway == "service" then Some(4)
      else if highway == "unclassified" then Some(4)
      else None
  }

  /** The table speed of a road's classification, or the fallback speed. */
  function ClassSpeed(tags: Tags, mode: Mode): (r: int)
    ensures r > 0
  {
    match tags.highway
    case None => FallbackSpeed
    case Some(h) => TableSpeed(mode, h).GetOr(FallbackSpeed)
  }

  /**
   * `getSpeed`: a car on a road with a readable `maxspeed` uses that number
   * (which may be zero or negative); everything else uses the table, falling
   * back to 10 km/h.
   */
  function GetSpeed(tags: Tags, mode: Mode): (r: int)
    ensures !(mode == Car && tags.maxspeed.Some?) ==> r > 0
  {
    if mode == Car && tags.maxspeed.Some? then tags.maxspeed.value
    else ClassSpeed(tags, mode)
  }

  /**
   * Minutes needed to cover `distanceKm` at `speed` km/h, `(distanceKm / speed) * 60`.
   * At speed 0 JavaScript yields Infinity or NaN; both are `None` here.
   */
  function TravelMinutes(distanceKm: real, speed: int): (t: Option<real>)
    ensures t.None? <==> speed == 0
    ensures t.Some? ==> t.value * speed as real == distanceKm * 60.0
    ensures speed > 0 && distanceKm >= 0.0 ==> t.Some? && t.value >= 0.0
  {
    if speed == 0 then None else Some((distanceKm / speed as real) * 60.0)
  }

  /** The order in which `getSpeed` decides: `maxspeed` for cars first, then the table, then 10 km/h. */
  lemma {:induction false} SpeedSelection(tags: Tags, mode: Mode)
    ensures mode == Car && tags.maxspeed.Some? ==> GetSpeed(tags, mode) == tags.maxspeed.value
    ensures !(mode == Car && tags.maxspeed.Some?) ==>
      GetSpeed(tags, mode) ==
        (if tags.highway.Some? && TableSpeed(mode, tags.highway.value).Some?
         then TableSpeed(mode, tags.highway.value).value else FallbackSpeed)
    ensures !(mode == Car && tags.maxspeed.Some?) ==> GetSpeed(tags, mode) > 0
    ensures mode != Car ==> GetSpeed(tags, mode) > 0
  {
  }

  /** A declared `maxspeed` of 45 overrides the residential table speed of 30 for cars, and only for cars. */
  lemma {:induction false} MaxspeedOverridesTable()
    ensures GetSpeed(Tags(Some("residential"), None, Some(45)), Car) == 45
    ensures GetSpeed(Tags(Some("residential"), None, None), Car) == 30
    ensures GetSpeed(Tags(Some("residential"), None, Some(45)), Bike) == 15
  {
  }
}
