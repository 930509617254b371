/** Failure-carrying values: a panic or an error return of the Go code becomes
    `None` or `Failure` here instead of a precondition. */
module Wrappers {

  datatype Option<+T> = None | Some(value: T)

  datatype Result<+R, +E> = Success(value: R) | Failure(error: E)
}
