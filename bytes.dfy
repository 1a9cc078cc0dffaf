/** Values shared by the session-id model: bytes, optional values and results. */
module Bytes {

  /** An octet, as held by Python `bytes`. */
  type byte = b: int | 0 <= b < 256

  /** Python's `None` or a value. */
  datatype Option<+T> = None | Some(value: T)

  /** The value an operation returns, or the exception it raises. */
  datatype Result<+T, +E> = Success(value: T) | Failure(error: E)

  /** A character in the 7-bit ASCII range. */
  predicate IsAscii(c: char) {
    c as int < 128
  }

  /** Every character of `s` is ASCII. */
  predicate AllAscii(s: string) {
    forall i :: 0 <= i < |s| ==> IsAscii(s[i])
  }
}
