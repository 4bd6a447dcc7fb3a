/** An optional value, for absent device-tree properties and rejected encodings. */
module Options {
  datatype Option<+T> = None | Some(value: T)
}
