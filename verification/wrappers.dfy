/** Failure-carrying datatypes shared by the whole model: Python's `None`
    becomes `Option.None`, and an exception that escapes a call becomes
    `Result.Failure`. */
module Wrappers {

  datatype Option<+T> = None | Some(value: T)

  datatype Result<+R, +E> = Success(value: R) | Failure(error: E)
}
