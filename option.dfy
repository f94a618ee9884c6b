/** A value that may be absent, as a JSON field the document lacks. */
module Optional {

  datatype Option<T> = None | Some(value: T)
}
