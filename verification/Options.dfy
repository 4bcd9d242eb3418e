/** A value that may be absent: a panic or an unreadable text has none. */
module Options {
  datatype Option<T> = None | Some(value: T)
}
