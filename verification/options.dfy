/** A value that may be absent: the null pointers of the modelled code. */
module Options {
  datatype Option<T> = None | Some(value: T)
}
