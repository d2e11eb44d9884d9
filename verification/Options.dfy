/** An optional value: what a lookup or an allocation that may fail returns. */
module Options {
  datatype Option<+T> = None | Some(value: T)
}
