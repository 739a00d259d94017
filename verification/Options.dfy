/** Values that may be absent, such as a null pointer's target. */
module Options {
  datatype Option<+T> = None | Some(value: T)
}
