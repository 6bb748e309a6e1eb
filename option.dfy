/** An optional value: absent, or present with its value. */
module Optional {

  datatype Option<T> = None | Some(value: T)
}
