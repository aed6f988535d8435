/** A value or the source's NULL. */
module Options {
  datatype Option<+T> = None | Some(value: T)
}
