/** The usual stand-in for a null pointer or a failed lookup. */
module Optional {
  datatype Option<+T> = None | Some(value: T)
}
