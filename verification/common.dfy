/** Small shared datatypes. */
module Common {

  /** A value that may be absent: the NULL / "not found" returns of the C code. */
  datatype Option<+T> = None | Some(value: T)
}
