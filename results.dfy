/** Optional values, as Rust's `Option`. */
module Results {
  datatype Option<T> = None | Some(value: T)
}
