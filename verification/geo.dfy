/** Station positions as the METPV headers give them. */
module Geo {

  /** Decimal degrees from a degrees part and a minutes part: `degrees + minutes / 60`. */
  function Degrees(degrees: real, minutes: real): (d: real)
    ensures minutes == 0.0 ==> d == degrees
    ensures 0.0 <= minutes < 60.0 ==> degrees <= d < degrees + 1.0
  {
    degrees + minutes / 60.0
  }
}
