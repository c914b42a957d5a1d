/** An optional value, as Python's `None`-or-value arguments and results. */
module Optional {
  datatype Option<+T> = None | Some(value: T)
}
