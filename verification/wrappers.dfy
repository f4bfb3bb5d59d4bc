/** Option and Result: the absent value and the fatal error of the model. */
module Wrappers {

  /** `None` stands for a missing value (pandas NaN/NaT, or a lookup that found nothing). */
  datatype Option<+T> = None | Some(value: T)

  /** The outcome of an operation that can abort the run. */
  datatype Result<+R, +E> = Success(value: R) | Failure(error: E)
}
