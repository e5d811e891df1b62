/** A value that may be missing: a nil pointer of the program. */
module Optional {
  datatype Option<+T> = None | Some(value: T)
}
