/** The optional value the source writes as `null`, `undefined` or `None`. */
module Options {
  datatype Option<+T> = None | Some(value: T)
}
