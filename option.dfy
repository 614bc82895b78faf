/** The optional value returned by unique-index lookups and by `first`. */
module Options {

  datatype Option<+T> = None | Some(value: T)
}
