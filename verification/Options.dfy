/** A value that may be missing: a pointer that may be NULL, or a function that may find nothing. */
module Options {
  datatype Option<+T> = None | Some(value: T)
}
