/** Small value types shared by the audit model: optional values, results
    carrying an error, and raw secret bytes. */
module Basics {

  /** A value that may be absent (Go's nil pointer result). */
  datatype Option<+T> = None | Some(value: T)

  /** A value or the error that replaced it (Go's (value, error) pair). */
  datatype Result<+T, +E> = Success(value: T) | Failure(error: E)

  /** One byte of a secret's opaque data. */
  newtype Byte = b: int | 0 <= b < 256

  /** The raw value stored under one key of a secret. */
  type Bytes = seq<Byte>
}
