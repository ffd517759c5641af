/** The "value or nothing" results that the source signals with `null` / `undefined`. */
module Options {
  datatype Option<T> = None | Some(value: T)
}
