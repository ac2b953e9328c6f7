/** An absent-or-present value, used for `null`/`undefined` results of the browser APIs. */
module Optional {

  datatype Option<+T> = None | Some(value: T)
}
