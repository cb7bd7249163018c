/**
 * Coordinates and node identity. A node is identified by its coordinate
 * rounded to six decimals (`toFixed(6)`); here the key holds the two
 * rounded values as whole micro-degrees.
 */
module Geometry {

  /** A (latitude, longitude) pair in degrees. */
  datatype Coord = Coord(lat: real, lng: real)

  /** Node identity: latitude and longitude in whole micro-degrees. */
  datatype Key = Key(lat6: int, lng6: int)

  /**
   * `x.toFixed(6)` as a number of micro-degrees: the integer nearest to
   * `x * 10^6`, halves rounded away from zero (toFixed rounds the magnitude
   * and picks the larger candidate on a tie).
   */
  function Round6(x: real): (r: int)
    ensures r as real - 0.5 <= x * 1000000.0 <= r as real + 0.5
    ensures x >= 0.0 ==> r >= 0
    ensures x <= 0.0 ==> r <= 0
    ensures x >= 0.0 ==> x * 1000000.0 < r as real + 0.5
    ensures x < 0.0 ==> r as real - 0.5 < x * 1000000.0
  {
    if x >= 0.0 then (x * 1000000.0 + 0.5).Floor
    else -((-x) * 1000000.0 + 0.5).Floor
  }

  /** `nodeKey(lat, lng)`: a key within half a micro-degree of the coordinate in each axis. */
  function NodeKey(c: Coord): (k: Key)
    ensures k.lat6 as real - 0.5 <= c.lat * 1000000.0 <= k.lat6 as real + 0.5
    ensures k.lng6 as real - 0.5 <= c.lng * 1000000.0 <= k.lng6 as real + 0.5
  {
    Key(Round6(c.lat), Round6(c.lng))
  }

  /**
   * Rounding is symmetric about zero: coordinates mirrored across the
   * equator or the prime meridian round to opposite micro-degree values.
   */
  lemma {:induction false} Round6Symmetric(x: real)
    ensures Round6(-x) == -Round6(x)
  {
    if x == 0.0 {
      assert -x == 0.0;
    }
  }
}
