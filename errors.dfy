/** Failure outcomes of the simulation engine.
    The source raises exceptions; here each one is a distinct value. */
module Errors {

  datatype Error =
    | InvalidWidth                                // ValueError: a world needs x > 0
    | InvalidHeight                               // ValueError: a world needs y > 0
    | OutOfBound(x: int, y: int)                  // OutOfBoundError for the cell (x, y)
    | PatternTooLarge(minWidth: int, minHeight: int)  // ValueError from pattern placement

  /** The result of an operation that returns a value or raises. */
  datatype Result<T> = Ok(value: T) | Err(error: Error)

  /** The result of an operation that returns nothing or raises. */
  datatype Outcome = Done | Fail(error: Error)
}
