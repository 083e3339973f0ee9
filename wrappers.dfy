/** Option and Result datatypes: Java's `null` group values and the
    exception thrown when a rule does not compile. */
module Wrappers {

  datatype Option<+T> = None | Some(value: T)

  datatype Result<+R, +E> = Success(value: R) | Failure(error: E)
}
