/** A value that may be missing: an erased block, or the nil beside an error. */
module Options {
  datatype Option<+T> = None | Some(value: T)
}
