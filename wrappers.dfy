/** An optional value, standing for JavaScript's `null`, `undefined` and NaN
    where the board's code produces them. */
module Wrappers {

  datatype Option<+T> = None | Some(value: T)
}
