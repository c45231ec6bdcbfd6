/** An optional value: JavaScript `undefined`, or the outcome of a
    computation that throws. */
module Wrappers {

  datatype Option<+T> = None | Some(value: T)
}
