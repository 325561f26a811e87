/** Optional values, used where a partial inverse may have no answer. */
module Options {
  datatype Option<+T> = None | Some(value: T)
}
