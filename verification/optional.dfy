/** The optional value the model uses wherever the Go code returns `(value, ok)` or `(value, err)`. */
module Optional {

  datatype Option<+T> = None | Some(value: T)
}
