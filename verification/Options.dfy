/** An optional value: the source's std::optional, and the result of an operation that may reject its input. */
module Options {
  datatype Option<+T> = None | Some(value: T)
}
