// A value that may be missing: a null pointer or an absent map entry of the source.
module Options {
  datatype Option<+T> = None | Some(value: T)
}
