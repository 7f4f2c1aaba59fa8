/** The optional value used throughout the model in place of a null pointer. */
module Optional {

  datatype Option<+T> = None | Some(value: T)

}
