/** An optional value, shared by every module that needs one. */
module Optional {
  datatype Option<T> = None | Some(value: T)
}
