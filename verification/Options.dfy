/** An optional value: the scripts' `null` and `undefined`. */
module Options {
  datatype Option<T> = None | Some(value: T)
}
