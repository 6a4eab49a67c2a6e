/** The optional-value datatype shared by the other modules. */
module Wrappers {

  /** `None` stands for JavaScript's "no value" outcomes (`NaN`, `undefined`, a thrown error). */
  datatype Option<+T> = None | Some(value: T)
}
