/** Failure values shared by the phonebook core.  The C++ code signals
    failure by throwing `std::invalid_argument`, `std::out_of_range` or
    `std::runtime_error`; here each throw becomes a `Failure` carrying the
    exception kind and its message. */
module Errors {

  datatype Option<T> = None | Some(value: T)

  /** The three exception kinds the core throws, with their `what()` text. */
  datatype Error =
    | InvalidArgument(what: string)
    | OutOfRange(what: string)
    | RuntimeError(what: string)

  /** A value, or the exception that was thrown instead of producing it. */
  datatype Result<T> = Success(value: T) | Failure(error: Error)

  /** The outcome of a `void` operation that may throw. */
  datatype Status = Done | Failed(error: Error)
}
