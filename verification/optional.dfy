/** The Swift `String?` values the app reads from its key-value store. */
module Optional {

  /** Some/None, standing for a Swift optional. */
  datatype Option<+T> = None | Some(value: T)
}
