/**
 * Instants are integer milliseconds since the epoch (what `new Date(x).getTime()`
 * yields); record durations are whole seconds.
 */
module Intervals {

  function Max(a: int, b: int): int { if a >= b then a else b }
  function Min(a: int, b: int): int { if a <= b then a else b }

  /**
   * `Math.round(ms / 1000)`: the nearest whole number of seconds, a half second
   * rounded up (towards positive infinity, as JavaScript's Math.round does).
   */
  function RoundSeconds(ms: int): (s: int)
    ensures s * 1000 - 500 <= ms < s * 1000 + 500
    ensures s > 0 <==> ms >= 500
    ensures ms >= 0 ==> s >= 0
  {
    (ms + 500) / 1000
  }

  /** `Math.round` is determined by its rounding window: any s with the window property is it. */
  lemma RoundSecondsUnique(ms: int, s: int)
    requires s * 1000 - 500 <= ms < s * 1000 + 500
    ensures RoundSeconds(ms) == s
  {
    var r := RoundSeconds(ms);
    assert (r - s) * 1000 < 1000 && (s - r) * 1000 < 1000;
  }

  lemma RoundSecondsMonotonic(a: int, b: int)
    requires a <= b
    ensures RoundSeconds(a) <= RoundSeconds(b)
  {
    var ra, rb := RoundSeconds(a), RoundSeconds(b);
    assert (ra - rb) * 1000 < 1000;
  }

  /**
   * The half-open overlap test `a0 < b1 && a1 > b0` on [a0, a1) and [b0, b1):
   * touching intervals (a1 == b0) do not overlap. For non-empty intervals it
   * holds exactly when the intersection [max, min) is non-empty.
   */
  predicate Overlaps(a0: int, a1: int, b0: int, b1: int)
    ensures a0 < a1 && b0 < b1 ==> (Overlaps(a0, a1, b0, b1) <==> Max(a0, b0) < Min(a1, b1))
  {
    a0 < b1 && a1 > b0
  }

  /** An instant lies in the half-open interval [a0, a1). */
  predicate Within(t: int, a0: int, a1: int) { a0 <= t < a1 }

  /** Overlap is the existence of a shared instant, not just a comparison of bounds. */
  lemma OverlapsIffSharedInstant(a0: int, a1: int, b0: int, b1: int)
    ensures Overlaps(a0, a1, b0, b1) && a0 < a1 && b0 < b1 ==> Within(Max(a0, b0), a0, a1) && Within(Max(a0, b0), b0, b1)
    ensures forall t :: Within(t, a0, a1) && Within(t, b0, b1) ==> Overlaps(a0, a1, b0, b1)
  {
  }
}
