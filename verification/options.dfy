/** The optional value used wherever a Rust function returns `Option<T>`. */
module Options {
  datatype Option<+T> = None | Some(value: T)
}
