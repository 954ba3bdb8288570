/** A value that may be missing: the model of null and undefined. */
module Options {
  datatype Option<T> = None | Some(value: T)
}
