/**
 * Durations shared by both limiters: instants and durations are exact reals
 * (seconds), and a wait time is clamped at zero before it is handed back.
 */
module Durations {

  /** `max(0, d)`: the wait reported to a caller, never negative. */
  function ClampAtZero(d: real): (r: real)
    ensures 0.0 <= r && d <= r
    ensures r == 0.0 || r == d
  {
    if d < 0.0 then 0.0 else d
  }
}
