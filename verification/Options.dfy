/** A value that may be absent: Go's (value, ok) and (value, error) pairs where the error says
    no more than that it happened. */
module Options {
  datatype Option<+T> = None | Some(value: T)
}
