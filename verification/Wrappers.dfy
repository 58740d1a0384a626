// The option type and the time units every component uses.
module Wrappers {
  datatype Option<+T> = None | Some(value: T)
}

// Instants and durations are integers of nanoseconds; instants count from the Unix epoch.
module Clock {
  const SECOND: int := 1_000_000_000
  const MINUTE: int := 60 * SECOND
}
