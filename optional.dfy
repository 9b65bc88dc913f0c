/** An optional value, used for state that JavaScript leaves null or undefined. */
module Optional {

  datatype Option<T> = None | Some(value: T)
}
