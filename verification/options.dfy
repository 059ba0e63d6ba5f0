/** The usual optional value, used where the source holds a possibly-null pointer. */
module Options {
  datatype Option<T> = None | Some(value: T)
}
