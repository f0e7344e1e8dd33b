/** The exceptions the library and the exercise programs throw, as values. */
module Errors {
  /** `std::out_of_range`, `std::runtime_error` and `std::logic_error`, with their messages. */
  datatype Error =
    | OutOfRange(msg: string)
    | RuntimeError(msg: string)
    | LogicError(msg: string)

  /** A call that either returns a value or throws. */
  datatype Result<+T> = Ok(value: T) | Err(error: Error)

  /** A call that returns nothing or throws. */
  datatype Outcome = Pass | Fail(error: Error)
}
