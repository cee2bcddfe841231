/** The stock option type: Go's nil-or-value results and zero-or-one slots. */
module Options {
  datatype Option<+T> = None | Some(value: T)
}
