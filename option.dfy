/** A value that may be absent (java.util.Optional, or a nullable reference). */
module Options {
  datatype Option<T> = None | Some(value: T)
}
