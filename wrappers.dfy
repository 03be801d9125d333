/** An optional value; `None` stands for JavaScript's `undefined` where a
    property or a regular-expression match may be absent. */
module Wrappers {
  datatype Option<+T> = None | Some(value: T)
}
