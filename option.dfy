/** The result of parsing a request argument: `None` when it is missing or malformed. */
module Optional {
  datatype Option<+T> = None | Some(value: T)
}
