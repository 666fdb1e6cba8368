/** Optional values: `undefined`/`null` results of the hook are `None`. */
module Options {
  datatype Option<+T> = None | Some(value: T)
}
