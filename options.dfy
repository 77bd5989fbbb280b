/** The optional values of the source (`None` or a value). */
module Options {

  datatype Option<T> = None | Some(value: T)
}
