/** The small Option type used wherever the app works with a value that may be `undefined`. */
module Options {
  datatype Option<+T> = None | Some(value: T)
}
