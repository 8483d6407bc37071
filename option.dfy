/** The optional value the model uses where the script has `null` or a missing match. */
module Optional {
  datatype Option<T> = None | Some(value: T)
}
