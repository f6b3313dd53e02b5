/** Option and Result, used for the chunker's "no data" / "no block" sentinels
    and for the exceptions its constructor raises. */
module Wrappers {

  datatype Option<+T> = None | Some(value: T)

  datatype Result<+R, +E> = Success(value: R) | Failure(error: E)
}
