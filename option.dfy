/** The optional value used where the program either has a value or raises. */
module Optional {
  datatype Option<T> = None | Some(value: T)
}
