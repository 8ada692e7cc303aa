/** The optional value used where the source returns `None` or a regex finds no match. */
module Options {

  datatype Option<+T> = None | Some(value: T)

}
