/** The optional value used for fetch outcomes and for Java calls that can throw. */
module Wrappers {

  /** `None` stands for a failed fetch or a thrown exception; `Some` carries the value. */
  datatype Option<+T> = None | Some(value: T)
}
