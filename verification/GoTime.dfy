/** Go's time arithmetic as far as the repeat schedule uses it: an instant is an integer
    count of nanoseconds, a duration is a 64-bit signed count of nanoseconds. */
module GoTime {
  const NANOS_PER_SECOND: int := 1_000_000_000
  const MAX_DURATION: int := 0x7FFF_FFFF_FFFF_FFFF
  const MIN_DURATION: int := -0x8000_0000_0000_0000

  /** Two's-complement wrap-around of a 64-bit signed result. */
  function Wrap64(x: int): int {
    (x - MIN_DURATION) % 0x1_0000_0000_0000_0000 + MIN_DURATION
  }

  /** time.Time.Sub: the difference, saturating at the ends of the duration range. */
  function Sub(t: int, u: int): int {
    if t - u > MAX_DURATION then MAX_DURATION
    else if t - u < MIN_DURATION then MIN_DURATION
    else t - u
  }

  /** time.Time.Nanosecond: the part of an instant below a whole second. */
  function SubSecond(t: int): int {
    t % NANOS_PER_SECOND
  }

  lemma ProductMonotone(x: int, y: int, d: int)
    requires x <= y && d >= 0
    ensures x * d <= y * d
  {
  }
}
