/** An optional value, for results the C code reports as -1, 0 or NULL. */
module Options {
  datatype Option<+T> = None | Some(value: T)
}
