/** The optional value used wherever the source tests a type assertion or a nil pointer. */
module Optional {
  datatype Option<+T> = None | Some(value: T)
}
