/** Wrappers shared by every module of the model. */
module Wrappers {

  /** A value that may be absent: Java's `null` or an empty `Optional`. */
  datatype Option<+T> = None | Some(value: T)

  /** The outcome of a Java call: a returned value or the exception it throws. */
  datatype Result<+T, +E> = Ok(value: T) | Err(error: E)
}

/** Java's `byte[]` contents, as unsigned octets. */
module Bytes {

  type byte = x: int | 0 <= x < 256
}
