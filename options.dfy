/** The optional value that stands for Python's `None` or a present value. */
module Options {
  datatype Option<T> = None | Some(value: T)
}
