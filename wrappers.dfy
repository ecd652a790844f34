/** Option and Result: the model's stand-ins for C# null results and thrown exceptions. */
module Wrappers {

  /** `None` plays the part of a C# `null` result. */
  datatype Option<+T> = None | Some(value: T)

  /** `Failure` plays the part of an exception escaping the operation. */
  datatype Result<+T, +E> = Success(value: T) | Failure(error: E)
}
