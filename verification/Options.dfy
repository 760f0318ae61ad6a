/** A value that may be missing: a null pointer, or the not-found result of a search. */
module Options {
  datatype Option<+T> = None | Some(value: T)
}
