/** Instants and durations of Go's package time, as integer nanoseconds. */
module GoTime {
  const NANOS_PER_SECOND: int := 1_000_000_000
  const MIN_DURATION: int := -0x8000_0000_0000_0000
  const MAX_DURATION: int := 0x7FFF_FFFF_FFFF_FFFF

  /** A time.Duration: a 64-bit count of nanoseconds. */
  type Duration = d: int | MIN_DURATION <= d <= MAX_DURATION

  /** t.Sub(u): the difference, saturated to the range of a Duration. */
  function Sub(t: int, u: int): (d: Duration)
    ensures MIN_DURATION <= t - u <= MAX_DURATION ==> d == t - u
    ensures t - u < MIN_DURATION ==> d == -0x8000_0000_0000_0000
    ensures t - u > MAX_DURATION ==> d == 0x7FFF_FFFF_FFFF_FFFF
  {
    if t - u < MIN_DURATION then MIN_DURATION
    else if t - u > MAX_DURATION then MAX_DURATION
    else t - u
  }

  /** t.Unix(): whole seconds since the epoch, rounded toward minus infinity. */
  function Unix(t: int): (seconds: int)
    ensures seconds * 1_000_000_000 <= t < (seconds + 1) * 1_000_000_000
  {
    t / NANOS_PER_SECOND
  }

  /** Two's complement wrap-around of a 64-bit signed sum. */
  function Wrap64(x: int): Duration {
    (x - MIN_DURATION) % 0x1_0000_0000_0000_0000 + MIN_DURATION
  }

  /** Go's integer division by a positive divisor, which truncates toward zero. */
  function QuoTowardZero(x: int, y: int): int
    requires y > 0
  {
    if x >= 0 then x / y else -((-x) / y)
  }

  /**
   * Whole-second expiry stamps never outlive the instant they were cut from: a stamp
   * still in the future at t was taken from an instant strictly after t.
   */
  lemma StampBeforeInstant(expiry: int, t: int)
    requires Unix(expiry) > Unix(t)
    ensures expiry > t
  {
  }

  /** Adding whole seconds commutes with taking the stamp. */
  lemma UnixOfWholeSeconds(t: int, seconds: int)
    ensures Unix(t + seconds * NANOS_PER_SECOND) == Unix(t) + seconds
  {
  }
}
