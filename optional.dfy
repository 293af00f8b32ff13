/** A value that may be absent: the model's stand-in for `null` and for "no match". */
module Optional {

  datatype Option<+T> = None | Some(value: T)
}
