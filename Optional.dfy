/** Optional results: a read that finds no chunk, a search that finds no run. */
module Optional {
  datatype Option<T> = None | Some(value: T)
}
