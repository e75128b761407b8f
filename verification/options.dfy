/** An optional value: a query parameter that may be absent, a parse that may fail. */
module Options {

  datatype Option<+T> = None | Some(value: T)
}
