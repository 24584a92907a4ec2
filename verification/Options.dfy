/** A value that may be missing: the model's form of Go's nil, NoOp and "comma ok" results. */
module Options {

  datatype Option<+T> = None | Some(value: T)
}
