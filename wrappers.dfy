/** The optional-value and result types shared by the modules of the model. */
module Wrappers {

  /** An optional value; stands for Python's `None` versus a present value. */
  datatype Option<+T> = None | Some(value: T)

  /** The outcome of a validating parser: a value, or the reason it was rejected. */
  datatype Result<+T, +E> = Success(value: T) | Failure(error: E)
}
