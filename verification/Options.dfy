/** A value that may be missing: `undefined`. */
module Options {
  datatype Option<T> = None | Some(value: T)
}
