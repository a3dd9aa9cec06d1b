/** Lengths of time in nanoseconds. */
module Durations {
  const MINUTE: int := 60_000_000_000
  const HOUR: int := 60 * MINUTE
  const DAY: int := 24 * HOUR
}
