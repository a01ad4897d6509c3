/** Failure-free option and result types shared by every component. */
module Wrappers {

  datatype Option<+T> = None | Some(value: T)

  datatype Result<+T, +E> = Success(value: T) | Failure(error: E)

  /** Row identifiers.  The database orders UUIDs as 128-bit numbers. */
  type Uuid = nat
}
