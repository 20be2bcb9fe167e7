/** The optional value used throughout the model: `None` stands for JavaScript's
    `undefined`/`null` where the source reads a missing entry or field. */
module Wrappers {

  datatype Option<+T> = None | Some(value: T)
}
