/**
 * The two coordinate validators that the request layer registers with its
 * validation library. Each first asks whether the raw string is a float and,
 * only if it is, compares the parsed value against an inclusive range.
 *
 * The library's float test and the parse that follows it are foreign code;
 * here they are folded into one input: `None` when the string is not a float,
 * `Some(v)` when it parses to `v`.
 */
module DataValidator {
  import opened Wrappers

  const MaxLatitude: real := 90.0
  const MaxLongitude: real := 180.0

  /** The shared shape of both validators: a float check, then `-bound <= v <= bound`. */
  predicate WithinBound(parsed: Option<real>, bound: real)
  {
    match parsed
    case None => false
    case Some(v) => -bound <= v && v <= bound
  }

  /** Accepts exactly the floats in [-90, 90]. */
  function IsLat(parsed: Option<real>): (ok: bool)
    ensures ok <==> parsed.Some? && -90.0 <= parsed.value <= 90.0
    ensures parsed.None? ==> !ok
  {
    WithinBound(parsed, MaxLatitude)
  }

  /** Accepts exactly the floats in [-180, 180]. */
  function IsLong(parsed: Option<real>): (ok: bool)
    ensures ok <==> parsed.Some? && -180.0 <= parsed.value <= 180.0
    ensures parsed.None? ==> !ok
  {
    WithinBound(parsed, MaxLongitude)
  }

  /** The bounds themselves are accepted; a tenth beyond them is not. */
  lemma BoundsAreInclusive()
    ensures IsLat(Some(90.0)) && IsLat(Some(-90.0))
    ensures !IsLat(Some(90.1)) && !IsLat(Some(-90.1))
    ensures IsLong(Some(180.0)) && IsLong(Some(-180.0))
    ensures !IsLong(Some(180.1)) && !IsLong(Some(-180.1))
  {
  }

  /** A string that is not a float is refused whatever the range would say. */
  lemma NonFloatRejected()
    ensures !IsLat(None) && !IsLong(None)
  {
  }

  /** Every valid latitude is also a valid longitude. */
  lemma LatitudeIsLongitude(parsed: Option<real>)
    ensures IsLat(parsed) ==> IsLong(parsed)
  {
  }

  /** The converse fails: 91 is a longitude but not a latitude. */
  lemma LongitudeNotAlwaysLatitude()
    ensures IsLong(Some(91.0)) && !IsLat(Some(91.0))
  {
  }
}
