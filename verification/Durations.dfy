/** Spans of time in nanoseconds. */
module Durations {
  const NANOSECOND := 1
  const SECOND := 1_000_000_000
  const MINUTE := 60 * SECOND
  const HOUR := 60 * MINUTE
  const DAY := 24 * HOUR
}
