/** The optional value the engine expresses with Python's `None`. */
module Options {
  datatype Option<T> = None | Some(value: T)
}
