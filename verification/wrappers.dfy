/** The result types used wherever the Rust code panics or
    returns an `io::Result`. */
module Wrappers {

  datatype Result<+T, +E> = Success(value: T) | Failure(error: E)

  /** The outcome of an operation that returns nothing but may fail. */
  datatype Outcome<+E> = Pass | Fail(error: E)
}
