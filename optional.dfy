/** The usual Some/None datatype, used for results that may be missing. */
module Optional {

  datatype Option<+T> = None | Some(value: T)
}
