/** The optional value used wherever the Go code returns a nil pointer or a "not found". */
module Options {
  datatype Option<+T> = None | Some(value: T)
}
