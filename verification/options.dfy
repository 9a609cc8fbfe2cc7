/** An optional value, standing in for `None` returns and failed draws. */
module Options {

  datatype Option<+T> = None | Some(value: T)
}
