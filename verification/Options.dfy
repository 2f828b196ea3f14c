// A value that may be absent: a null reference, or a read that ran out of bytes.
module Options {
  datatype Option<+T> = None | Some(value: T)
}
