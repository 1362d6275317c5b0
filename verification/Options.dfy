/** Optional results: `None` stands for an exception or a missing value. */
module Options {
  datatype Option<+T> = None | Some(value: T)
}
