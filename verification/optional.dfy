/** A possibly-absent value: the model's stand-in for a Go pointer that may be nil. */
module Optional {

  datatype Option<+T> = None | Some(value: T)
}
