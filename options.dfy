/** The optional value used wherever a script reads a missing field, finds nothing, or throws. */
module Options {

  datatype Option<T> = None | Some(value: T)
}
