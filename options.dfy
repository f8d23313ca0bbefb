/** Optional values: JavaScript's `null` / `undefined` on the one hand and a present value on the other. */
module Options {

  datatype Option<+T> = None | Some(value: T)
}
