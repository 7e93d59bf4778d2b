/** Option and Result values standing for Java's Optional, for checked exceptions
    (Preconditions.checkArgument / checkState, AssertionError) and Python's raised errors. */
module Wrappers {

  datatype Option<+T> = None | Some(value: T)

  /** The error kinds the modelled code can raise. */
  datatype Error =
    | IllegalArgument(why: string)   // Preconditions.checkArgument
    | IllegalState(why: string)      // Preconditions.checkState
    | Assertion(why: string)         // AssertionError / Python assert
    | ValueError(why: string)        // Python int() on malformed text
    | NullPointer(why: string)       // a missing map entry that is then unboxed

  datatype Result<+T> = Ok(value: T) | Err(error: Error)

  /** The outcome of an operation that returns nothing but may raise. */
  datatype Status = Done | Failed(error: Error)
}
