/** An optional value, for everything the Python code returns as "a value or None". */
module Options {
  datatype Option<+T> = None | Some(value: T)
}
