/** Option and Result, used for C NULL pointers and for elog(ERROR, ...) exits. */
module Wrappers {

  /** A value that may be absent (a NULL text column, a NULL table pointer). */
  datatype Option<+T> = None | Some(value: T)

  /** The outcome of a call that either returns a value or raises an error. */
  datatype Result<+T, +E> = Success(value: T) | Failure(error: E)
}
