/** A value that may be missing: the C code's NULL. */
module Optional {
  datatype Option<+T> = None | Some(value: T)
}
