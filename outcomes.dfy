/**
 * Result shapes shared by the model.
 *
 * Go reports trouble in two ways here: a returned error (or a `false` flag)
 * and a panic. The parsers of this package panic on malformed input instead of
 * returning an error, so the two are kept apart.
 */
module Outcomes {

  datatype Option<T> = None | Some(value: T)

  /**
   * What a call ends in: a normal return with a value, a returned error (or
   * `false`), or a panic (an explicit `panic(...)` or a run-time fault such as
   * an index out of range).
   */
  datatype Outcome<T> = Ok(value: T) | Err | Panic
}
