/** A value or nothing: Python's None. */
module Options {
  datatype Option<+T> = None | Some(value: T)
}
