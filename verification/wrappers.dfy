/** Option and Result datatypes used throughout the model. */
module Wrappers {

  /** An optional value: `None` stands for Go's `nil`. */
  datatype Option<+T> = None | Some(value: T)

  /** The outcome of `Builder.Bytes`: either the encoded bytes or the stored error. */
  datatype Result<+T, +E> = Success(value: T) | Failure(error: E)
}
