/** Option and Result, used where VirtualImageData.ts returns "nothing here" or throws. */
module Wrappers {

  /** A value that may be absent. */
  datatype Option<+T> = None | Some(value: T)

  /** Either a value or the error VirtualImageData.ts would have thrown. */
  datatype Result<+R, +E> = Success(value: R) | Failure(error: E)
}
