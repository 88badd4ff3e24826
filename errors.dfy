/** The Python exceptions the modelled code can raise, and the result types
    that carry them in place of raising. */
module Errors {

  /** An exception raised by the modelled code. The last two are the plain
      `Exception`s that `Surface.check_surface` raises, one per message. */
  datatype Error =
    | ValueError
    | IndexError
    | KeyError
    | TypeError
    | ZeroDivisionError
    | OverflowError
    | RepresentationMismatch
    | SizeMismatch

  /** The value a Python expression returns, or the exception it raises. */
  datatype Result<T> = Ok(value: T) | Err(error: Error)

  /** The completion of a Python statement that returns nothing. */
  datatype Outcome = Done | Raised(error: Error)
}
