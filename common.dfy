/** Option and Result datatypes shared by the other modules. */
module Common {

  /** A value that may be absent: pandas' NaN, Python's None. */
  datatype Option<+T> = None | Some(value: T)

  /** The outcome of an operation that raises an exception in the source. */
  datatype Result<+R, +E> = Success(value: R) | Failure(error: E)
}
