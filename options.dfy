/** Optional values: Go's nil pointers and nil error results. */
module Options {
  datatype Option<+T> = None | Some(value: T)
}
