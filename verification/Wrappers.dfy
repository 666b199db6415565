/** Failure-carrying results shared by the modules of the model. */
module Wrappers {
  /** An optional value: `std::optional<T>` or a nullable pointer. */
  datatype Option<+T> = None | Some(value: T)

  /** The outcome of an operation that the node can abandon with an error. */
  datatype Result<+T, +E> = Ok(value: T) | Err(error: E)
}
