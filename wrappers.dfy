/** Option and Result: the failure-carrying values the model uses in place of
    the program's fatal log calls and nil checks. */
module Wrappers {

  datatype Option<+T> = None | Some(value: T)

  datatype Result<+R, +E> = Success(value: R) | Failure(error: E)
}
