/** Option and result types used in place of the source's null references and exceptions. */
module Wrappers {

  /** A value that may be absent; `None` stands for a C# `null` reference. */
  datatype Option<+T> = None | Some(value: T)

  /** The outcome of an operation that the source lets throw: `Err` carries the exception kind. */
  datatype Result<+R, +E> = Ok(value: R) | Err(error: E)
}
