/** The optional value and the success-or-error outcome every module of the model uses. */
module Wrappers {

  /** An optional value: `None` stands for JavaScript's `null`/`undefined` or a failed lookup. */
  datatype Option<+T> = None | Some(value: T)

  /** The outcome of an operation that either yields a value or fails with an error. */
  datatype Result<+R, +E> = Success(value: R) | Failure(error: E)
}
