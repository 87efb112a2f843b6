/** The usual optional-value datatype, used for the score (null until a
    submission succeeds) and for the request a step may send. */
module Wrappers {

  datatype Option<T> = None | Some(value: T)

}
