/** Optional values: `None` stands for JavaScript's `undefined`/`null`, or for a
    call that throws instead of returning. */
module Wrappers {
  datatype Option<+T> = None | Some(value: T)
}
