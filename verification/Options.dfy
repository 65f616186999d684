/** The optional value used wherever the modelled code uses None. */
module Options {
  datatype Option<+T> = None | Some(value: T)
}
