/** A pointer that may be null, or a result that may be an error code. */
module Options {
  datatype Option<T> = None | Some(value: T)
}
