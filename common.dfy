/** Small shared vocabulary: bytes and the usual optional/failure wrappers. */
module Common {

  /** One octet, as written into a buffer or onto a channel. */
  newtype byte = b: int | 0 <= b < 256

  /** A Java reference that may be null. */
  datatype Option<+T> = None | Some(value: T)

  /** The outcome of an operation that may throw. */
  datatype Result<+T, +E> = Success(value: T) | Failure(error: E)
}
