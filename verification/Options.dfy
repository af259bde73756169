/** A value that may be absent: a NULL pointer in the program. */
module Options {
  datatype Option<+T> = None | Some(value: T)
}
