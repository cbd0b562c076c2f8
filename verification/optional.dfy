/** A value that may be missing: a key not in the store, a header not sent. */
module Optional {

  datatype Option<+T> = None | Some(value: T)

}
