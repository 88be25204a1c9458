/** Option and Result, the two wrappers every other module uses for Go's
    nil pointers and (value, error) returns. */
module Outcomes {
  datatype Option<T> = None | Some(value: T)

  datatype Result<T, E> = Ok(value: T) | Err(error: E)
  {
    predicate IsFailure() { Err? }
  }
}
