/** Values that may be missing, in the place of null pointers. */
module Options {
  datatype Option<+T> = None | Some(value: T)
}
