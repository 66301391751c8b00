/** Optional values, shared by every module of the model. */
module Optional {

  /** An optional value. */
  datatype Option<+T> = None | Some(value: T)
}
