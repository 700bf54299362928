/** Results that may be missing, as for an exception or an error. */
module Options {
  datatype Option<+T> = None | Some(value: T)
}
