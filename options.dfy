/** The optional value used where the source returns a null pointer or skips an input. */
module Options {
  datatype Option<T> = None | Some(value: T)
}
