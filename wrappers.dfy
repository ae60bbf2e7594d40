/** Option and Result, the wrappers the rest of the model uses. */
module Wrappers {

  /** Rust's `Option`: the result of the generated conversions. */
  datatype Option<+T> = None | Some(value: T)

  /** The outcome of the derive: the generated impl, or the panic that aborts it. */
  datatype Result<+T, +E> = Success(value: T) | Failure(error: E)
}
