/** Small shared datatypes. */
module Common {

  /** A value that may be absent (a JavaScript property that is `undefined`). */
  datatype Option<T> = None | Some(value: T)
}
