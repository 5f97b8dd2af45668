/** Results that may be missing, and calls that may not return. */
module Options {
  datatype Option<T> = None | Some(value: T)

  /** A call that returns a value, or stops at an index past the end of an array or below zero. */
  datatype Call<T> = Returns(value: T) | Panics
}
