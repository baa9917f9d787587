/** The optional-value wrapper shared by the other modules. */
module Options {

  /** A value that may be absent: `URLSearchParams.get` returning null, a parser rejecting its input. */
  datatype Option<+T> = None | Some(value: T)
}
