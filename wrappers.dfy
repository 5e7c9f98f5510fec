/** Plain wrappers for the service's nullable values and thrown errors. */
module Wrappers {

  /** A nullable value: `None` stands for Java's `null` or an empty `Optional`. */
  datatype Option<+T> = None | Some(value: T)

  /** The value of an operation, or the message of the `RuntimeException` it throws. */
  datatype Result<+R, +E> = Ok(value: R) | Err(error: E)

  /** The outcome of an operation that returns nothing (`void`) or throws. */
  datatype Outcome<+E> = Pass | Fail(error: E)
}
