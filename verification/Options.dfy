/** An optional value, as the other modules share it. */
module Options {
  datatype Option<+T> = None | Some(value: T)
}
