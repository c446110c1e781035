/** Option and Result types shared by the whole model. `None` plays the role of
    the source's `null` "not found" sentinel and of SQL NULL. */
module Wrappers {

  datatype Option<+T> = None | Some(value: T)

  datatype Result<+R, +E> = Success(value: R) | Failure(error: E)
}
