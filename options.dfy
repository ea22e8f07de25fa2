/** A value that may be absent: C#'s null reference or a failed parse. */
module Options {
  datatype Option<T> = None | Some(value: T)
}
