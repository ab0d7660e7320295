/** Results that may be missing: the null of the decoder, the failure flag of the parser. */
module Options {
  datatype Option<+T> = None | Some(value: T)
}
