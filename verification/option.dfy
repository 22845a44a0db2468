/** The optional value used for operations that can fail or block. */
module Optional {
  datatype Option<T> = None | Some(value: T)
}
