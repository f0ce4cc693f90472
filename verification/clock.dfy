/** Time as the application handles it: a `Date` is a count of milliseconds, or
    the invalid date that `setHours(NaN, …)` produces. Local time is taken to be
    a fixed zone without daylight-saving shifts. */
module Clock {

  const MsPerSecond: int := 1_000
  const MsPerMinute: int := 60_000
  const MsPerHour: int := 3_600_000
  const MsPerDay: int := 86_400_000

  /** A `Date` value: `At(ms)` for a valid time value, `Invalid` for `NaN`. */
  datatype Moment = At(ms: int) | Invalid

  /** `Math.max(a, b)` on integers. */
  function Max(a: int, b: int): (r: int)
    ensures r >= a && r >= b && (r == a || r == b)
  {
    if a >= b then a else b
  }

  /** `Math.min(a, b)` on integers. */
  function Min(a: int, b: int): (r: int)
    ensures r <= a && r <= b && (r == a || r == b)
  {
    if a <= b then a else b
  }
}
