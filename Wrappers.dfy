/** Presence and failure wrappers shared by the two components. */
module Wrappers {

  /** A value that may be absent: Java's nullable reference, or an unset protobuf field. */
  datatype Option<+T> = None | Some(value: T)

  /** The outcome of an operation that may throw. */
  datatype Result<+R, +E> = Success(value: R) | Failure(error: E)
}
