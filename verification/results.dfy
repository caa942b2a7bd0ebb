/** Failure-carrying values used across the model: an optional value and a
    success-or-error result standing for a JavaScript `throw`. */
module Results {

  datatype Option<+T> = None | Some(value: T)

  datatype Result<+T, +E> = Success(value: T) | Failure(error: E)
}
