/** Result and error values shared by every module of the model. */
module Common {

  /** An error as the program reports it: the context message attached with `wrap_err`
      or `ok_or_eyre`, or the message of a collaborator's own error. */
  datatype Error = Error(message: string)

  datatype Option<+T> = None | Some(value: T)

  datatype Result<+T> = Ok(value: T) | Err(error: Error)

  /** Rust's fixed-width integer types, as value ranges. `usize` is taken to be 64 bits wide. */
  newtype u64 = x: int | 0 <= x < 0x1_0000_0000_0000_0000
  newtype i64 = x: int | -0x8000_0000_0000_0000 <= x < 0x8000_0000_0000_0000

  /** The `()`-valued result of an operation that only succeeds or fails. */
  datatype Outcome = Pass | Fail(error: Error)
}
