/** The result of a search that may find nothing. */
module Options {
  datatype Option<T> = None | Some(value: T)
}
