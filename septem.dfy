/** Stand-in for the crate's error and result types, which live outside the
    digit codec: `Error::InvalidNumber` carries the rejected number and
    `Error::InvalidDigit` the rejected character. */
module Septem {

  datatype Error =
    | InvalidNumber(number: nat)
    | InvalidDigit(digit: char)

  /** `septem::Result<T>`: either a value or one of the two errors. */
  datatype Result<T> = Ok(value: T) | Err(error: Error)
}
