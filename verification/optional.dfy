/** The optional value used for the bar's `Int?` and `UITouch?` state. */
module Optional {

  datatype Option<+T> = None | Some(value: T)
}
