/** Swift's `Optional` (`Any?`), as returned by the lookups of Map and List. */
module Optional {

  datatype Option<T> = None | Some(value: T)
}
