/** The optional value that stands for JavaScript's `undefined` (a missing
    answer, a missing category) and for `NaN` (a string `Number()` cannot read). */
module Wrappers {

  datatype Option<+T> = None | Some(value: T)

}
