/** The exceptions the modelled helpers can raise, and a Result type that
    carries either a value or one of them. */
module Results {

  datatype Error =
    | NoArguments               // a call with an empty argument list (TypeError)
    | EmptyReduce               // functools.reduce over an empty sequence (TypeError)
    | NothingToStack            // np.stack of an empty list of arrays (ValueError)
    | RepeatShapeMismatch       // np.repeat with counts that do not broadcast (ValueError)
    | NegativeRepeatCount       // np.repeat with a negative count (ValueError)
    | IndexOutOfBounds(index: nat, size: nat)      // IndexError on a numpy axis
    | MaskLengthMismatch(rows: nat, maskLen: nat)   // IndexError of a boolean mask

  datatype Result<T> = Ok(value: T) | Err(error: Error)

  /** The outcome of an operation that only changes state. */
  datatype Outcome = Pass | Fail(error: Error)
}
