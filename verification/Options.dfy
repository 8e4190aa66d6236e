/** The usual optional value, standing for a Go pointer or a `value, ok` pair. */
module Options {
  datatype Option<+T> = None | Some(value: T)
}
