/** Option and Result, used for the optional parts of the syntax tree and for
    the error paths of the macro and the runtime. */
module Wrappers {

  datatype Option<+T> = None | Some(value: T)

  datatype Result<+R, +E> = Success(value: R) | Failure(error: E)
}
