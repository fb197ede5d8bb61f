/** The optional values of the source (`None` against a value). */
module Options {
  datatype Option<+T> = None | Some(value: T)
}
