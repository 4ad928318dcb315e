/** Typed outcomes for the statistics routines: the exceptions the routines
    raise and the error strings they return become failure kinds. */
module Outcome {

  /** Why a computation produced no number. */
  datatype Failure =
    | DivisionByZero   // a ZeroDivisionError raised by a `/`
    | IndexOutOfRange  // an IndexError raised by indexing an empty or short list
    | TooFewPairings   // "error: need at least two pairings to pool"
    | TooFewDatasets   // "error: anova requires at least 3 datasets"
    | ComplexRoot      // `** 0.5` of a negative number, which yields a complex value

  datatype Result<+T> = Ok(value: T) | Err(failure: Failure)

  datatype Option<+T> = None | Some(value: T)
}
