/** Plain `Option` and `Result` datatypes used across the model: `Option` for a value
    that may be missing (an exhausted stream of random draws) and `Result` for an
    operation that can fail with a message (an unknown preset selector). */
module Wrappers {

  datatype Option<+T> = None | Some(value: T)

  datatype Result<+R, +E> = Success(value: R) | Failure(error: E)
}
