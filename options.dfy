/** The optional value used for lookups and searches that may find nothing. */
module Options {
  datatype Option<+T> = None | Some(value: T)
}
