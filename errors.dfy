/** The exceptions the library throws, and the results of operations that can throw. */
module Errors {

  /** `std::out_of_range` carries the name of the throwing member; `std::runtime_error` a message. */
  datatype Error = OutOfRange(where: string) | RuntimeError(message: string)

  /** The value of an operation that returns normally, or the exception it throws. */
  datatype Result<+T> = Ok(value: T) | Err(error: Error)

  /** The outcome of an operation that returns nothing (or `*this`), or the exception it throws. */
  datatype Outcome = Done | Fail(error: Error)

  datatype Option<+T> = None | Some(value: T)
}
