/** Option and Result: missing cells and error paths of the modelled scripts. */
module Wrappers {

  /** A value that may be absent: `None` stands for a missing (NaN) cell. */
  datatype Option<+T> = None | Some(value: T)

  /** The outcome of a stage that can stop the whole script. */
  datatype Result<+R, +E> = Success(value: R) | Failure(error: E)
}
