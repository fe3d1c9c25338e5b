/** The two Python exceptions the modelled code can raise, and a result type
    that carries either a value or the exception. */
module Outcomes {
  /** IndexError: a string position past its end. ZeroDivisionError: a ratio
      with no hands examined. */
  datatype Error = IndexError | ZeroDivisionError

  datatype Result<T> = Success(value: T) | Failure(error: Error)

  datatype Option<T> = None | Some(value: T)
}
