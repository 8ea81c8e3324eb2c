/** A value that may be missing: a null pointer or a failed lookup of the source. */
module Options {
  datatype Option<T> = None | Some(value: T)
}
