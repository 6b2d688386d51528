/** Shared value types: bytes, optional values and results carrying an error text. */
module Base {

  /** One byte, as Go's `byte`. */
  newtype uint8 = x: int | 0 <= x < 256

  datatype Option<+T> = None | Some(value: T)

  /** A value or the text of the error that prevented it (Go's `(T, error)` pair). */
  datatype Result<+T> = Ok(value: T) | Err(error: string)
}
