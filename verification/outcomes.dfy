/**
 Failure-carrying return values shared by the list and the chunked vector.
 The C++ code reports errors by throwing standard exceptions; here an
 operation that can throw returns a `Result` whose `Err` case names the
 exception type and carries its message.
 */
module Outcomes {

  /** A possibly-absent value: the model of a nullable node handle. */
  datatype Option<+T> = None | Some(value: T)

  /** The exception types thrown by the modelled code. */
  datatype Error =
    | OutOfRange(message: string)   // std::out_of_range
    | LogicError(message: string)   // std::logic_error

  /** Either the value an operation returns or the exception it throws. */
  datatype Result<+T> = Ok(value: T) | Err(error: Error)
}
