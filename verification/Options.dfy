/** A value that may be absent: Python's `None` next to a real value. */
module Options {
  datatype Option<+T> = None | Some(value: T)
}
