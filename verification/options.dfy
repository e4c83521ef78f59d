/** A value that may be missing: the model of Python's `None`. */
module Options {

  datatype Option<+T> = None | Some(value: T)

}
