/** The optional value used where the source holds `null` or `undefined`. */
module Options {
  datatype Option<T> = None | Some(value: T)
}
