/** A value that may be missing: the null pointers and error returns of the sources. */
module Options {
  datatype Option<T> = None | Some(value: T)
}
