/** The Ruby `nil` that several fields start out as, made explicit. */
module Optional {
  datatype Option<T> = None | Some(value: T)
}
