/** Result types shared by the ledger modules. */
module Wrappers {

  /** A value that may be absent; stands for the `T | null` results of the store queries. */
  datatype Option<+T> = None | Some(value: T)

  /** A value or the error that prevented computing it. */
  datatype Result<+R, +E> = Success(value: R) | Failure(error: E)

  /** Success without a value, or the error that was raised. */
  datatype Outcome<+E> = Pass | Fail(error: E)
}
