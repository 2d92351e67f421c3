/** A value or nothing: the model of an address that may be null and of BITMAP_ERROR. */
module Options {
  datatype Option<+T> = None | Some(value: T)
}
