// Absent values: SQL NULL, Rust None, a missing map entry.
module Options {
  datatype Option<+T> = None | Some(value: T)
}
