/** An optional value, used where the Go code uses an empty string or a nil interface. */
module Options {

  datatype Option<+T> = None | Some(value: T)

}
