/** The `T | null` values of the source, as an optional value. */
module Optional {
  datatype Option<+T> = None | Some(value: T)
}
