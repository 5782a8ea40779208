/** The optional-value datatype shared by the other modules. */
module Options {

  /** A value that may be absent: Go's `nil` error versus a present one. */
  datatype Option<+T> = None | Some(value: T)
}
