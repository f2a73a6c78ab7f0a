/**
  A value that may be missing: NULL, an error that carries nothing, a blob that was never stored.
*/
module Options {
  datatype Option<T> = None | Some(value: T)
}
