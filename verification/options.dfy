/** The optional value used wherever the source stores `null` or `undefined`. */
module Options {

  datatype Option<+T> = None | Some(value: T)
}
