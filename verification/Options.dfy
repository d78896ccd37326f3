/** The result of an operation that may have no value. */
module Options {
  datatype Option<+T> = None | Some(value: T)
}
