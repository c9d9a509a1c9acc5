/**
  A value that may be missing: what a lookup finds, or what an operation that can fail or panic gives.
 */
module Options {
  datatype Option<+T> = None | Some(value: T)
}
