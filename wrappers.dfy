/** Failure-carrying results shared by the models: the Kotlin code reports
    misuse by throwing, which the models return as a `Failure`. */
module Wrappers {

  datatype Option<+T> = None | Some(value: T)

  /** The exceptions the modelled Kotlin code can throw. */
  datatype Error =
    | IllegalState     // `check(...)` failed or `throw IllegalStateException()`
    | IllegalArgument  // `require(...)` failed
    | TableFull        // `check(index != startingIndex) { "Table is full" }`

  datatype Result<+R> = Success(value: R) | Failure(error: Error)

  /** The outcome of an operation that returns nothing on success. */
  datatype Outcome = Pass | Fail(error: Error)
}
