/** Optional values and outcomes, for missing fields and for the places where the pipeline raises. */
module Wrappers {

  /** An optional value: `None` stands for a missing field (JSON null / pandas NaN). */
  datatype Option<+T> = None | Some(value: T)

  /** The outcome of a step that can raise: `Failure` carries the exception's message. */
  datatype Result<+R, +E> = Success(value: R) | Failure(error: E)
}
