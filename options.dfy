/** A value that may be absent: a DOM attribute that is not set, a storage key with no entry,
    an element a lookup did not find. */
module Options {
  datatype Option<+T> = None | Some(value: T)
}
