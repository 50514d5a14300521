// A value that may be absent: an operation that can fail, or a field that
// may be missing from a record.
module Optional {
  datatype Option<T> = None | Some(value: T)
}
