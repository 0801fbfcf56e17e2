/** Python's `None`-or-value, used for optional fields and failed lookups. */
module Optional {

  datatype Option<+T> = None | Some(value: T)
}
