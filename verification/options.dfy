/** Rust's `Option`: the absence-of-result value returned by the checked operations. */
module Options {

  datatype Option<+T> = None | Some(value: T)
}
