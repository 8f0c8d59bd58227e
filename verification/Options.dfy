/** The optional value shared by the models of Rust's Option, Python's None and unset C++ optionals. */
module Options {
  datatype Option<+T> = None | Some(value: T)
}
