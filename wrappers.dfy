/** Failure-carrying result types shared by the modules of this model.
    A Python function that returns a value or raises becomes a `Result`;
    one that returns nothing or raises becomes an `Outcome`. */
module Wrappers {

  datatype Option<+T> = None | Some(value: T)

  datatype Result<+R, +E> = Success(value: R) | Failure(error: E)

  datatype Outcome<+E> = Pass | Fail(error: E)
}
