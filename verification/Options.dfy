/** The optional values the firmware passes around. */
module Options {
  datatype Option<+T> = None | Some(value: T)
}
