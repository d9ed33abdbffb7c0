/** A value that may be missing: a NULL pointer, or an answer that has not come. */
module Options {
  datatype Option<+T> = None | Some(value: T)
}
