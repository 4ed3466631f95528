/** A value that may be missing: a null pointer, a failed call, an error that did not happen. */
module Options {

  datatype Option<T> = None | Some(value: T)
}
