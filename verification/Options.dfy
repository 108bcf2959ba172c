/** A value that may be missing: Go's `(value, false)` and `(value, error)` results. */
module Options {
  datatype Option<+T> = None | Some(value: T)
}
