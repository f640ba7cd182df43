/** An optional value: the model's stand-in for JavaScript's `null` next to a present value. */
module Options {

  datatype Option<+T> = None | Some(value: T)
}
