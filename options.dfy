/** The optional value shared by the parser and the expression iterator. */
module Options {

  datatype Option<+T> = None | Some(value: T)
}
