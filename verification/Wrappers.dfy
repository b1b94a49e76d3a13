/** Option and Result, used across the model for Go's (value, ok) and (value, error) returns. */
module Wrappers {

  datatype Option<+T> = None | Some(value: T)

  datatype Result<+T, +E> = Ok(value: T) | Err(error: E)

  // Instants and durations are whole nanoseconds; Unix() is the floor to whole seconds.
  const SECOND: int := 1_000_000_000

  function Unix(at: int): int {
    at / SECOND
  }
}
