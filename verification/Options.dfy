/** The optional value used for nullable columns and cache misses. */
module Options {
  datatype Option<+T> = None | Some(value: T)
}
