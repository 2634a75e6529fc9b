/** A value that may be absent: the source's null pointers, end-of-stream returns and raised errors. */
module Options {
  datatype Option<T> = None | Some(value: T)
}
