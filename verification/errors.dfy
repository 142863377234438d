/**
 * The error taxonomy shared by every layer (kabomu/errors.py). `QuasiHttp` is the
 * reason-coded protocol error; its cause is the error it wraps, if any.
 */
module Errors {
  import opened Wrappers

  datatype Reason = General | Timeout | ProtocolViolation | MessageLengthLimitExceeded

  datatype Error =
    | IoError(message: string)
    | MissingDependency(message: string)
    | IllegalArgument(message: string)
    | ExpectationViolation(message: string)
    | QuasiHttp(reason: Reason, message: string, cause: Option<Error>)
      /** Python's built-in ValueError: null call arguments and unparseable numbers. */
    | ValueError(message: string)
      /** Any other error raised by a collaborator (a transport hook, a user callback). */
    | Foreign(message: string)

  type ErrorOr<T> = Result<T, Error>

  /** The end-of-read error of KabomuIOError.create_end_of_read_error. */
  const EndOfRead: Error := IoError("unexpected end of read")

  /** A protocol error built from a message alone carries reason GENERAL. */
  function QuasiHttpError(message: string): Error {
    QuasiHttp(General, message, None)
  }

  /** A protocol-violation error with no cause. */
  function Violation(message: string): Error {
    QuasiHttp(ProtocolViolation, message, None)
  }
}
