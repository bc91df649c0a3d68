/** The one sum type shared by all the models: a value that may be absent. */
module Options {
  datatype Option<+T> = None | Some(value: T)
}
