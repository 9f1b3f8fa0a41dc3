/** An optional value: the model's stand-in for JavaScript's `null`/`undefined`
    versus an object reference. */
module Opt {
  datatype Option<+T> = None | Some(value: T)
}
