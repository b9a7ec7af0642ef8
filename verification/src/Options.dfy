/** Null-or-something, as the run-time library's nullable expression pointers are. */
module Options {
  datatype Option<+T> = None | Some(value: T)
}
