/** Failure-carrying values shared by the model: an absent result (the source's
    nil pointer) and a value-or-error result (the source's `(value, error)`
    pairs and panics). */
module Wrappers {

  datatype Option<+T> = None | Some(value: T)

  datatype Result<+R, +E> = Success(value: R) | Failure(error: E)
}
