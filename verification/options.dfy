/** The optional value returned by lookups and parsers, in place of Python's `None`. */
module Options {

  datatype Option<+T> = None | Some(value: T)
}
