/** A value that SQL may leave NULL. */
module Options {

  datatype Option<+T> = None | Some(value: T)
}
