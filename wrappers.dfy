/** Result type for the fallible operations of the core, and the error kinds they report. */
module Wrappers {

  datatype Result<+T, +E> = Success(value: T) | Failure(error: E)

  /** Raised when two vectors that must have the same length do not. */
  datatype ValueError = UnequalSizeVectors

  /** Deserialization errors of the target group. */
  datatype SerzDeserzError =
    | GTBytesIncorrectSize(got: nat, expected: nat)
      /** Whatever the external FP2 hex parser reports. */
    | ExternalParseError(detail: string)
}
