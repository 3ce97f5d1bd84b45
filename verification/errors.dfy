/** Error kinds and result wrappers shared by every component.
    The host binding raises an index error for coordinates (and direction
    indices) out of range and a value error for an unrecognised name; they
    are the two error kinds below. */
module Errors {

  datatype Error = OutOfRange | InvalidArgument

  datatype Option<+T> = None | Some(value: T)

  /** Result of an operation that yields a value or fails. */
  datatype Result<+T> = Ok(value: T) | Err(error: Error)

  /** Result of an operation that yields nothing or fails. */
  datatype Outcome = Pass | Fail(error: Error)
}

/** Fixed-width integers of the source. Arithmetic on `i32` is checked by the
    verifier, so an operation that would overflow (a panic in a debug build)
    must be excluded by a precondition. */
module Ints {

  /** The range of Rust's `i32`. */
  predicate InI32(x: int) {
    -0x8000_0000 <= x < 0x8000_0000
  }

  newtype i32 = x: int | InI32(x)

  newtype u32 = x: int | 0 <= x < 0x1_0000_0000
}
