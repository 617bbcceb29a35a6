/** Failure-carrying results shared by every module of the model.
    `Error` names the Python exception an operation of the library raises;
    the library never recovers from one, so a failing call simply returns `Err`. */
module Wrappers {

  datatype Option<+T> = None | Some(value: T)

  /** The Python exception classes the modelled code can raise. */
  datatype Error =
    | AssertionFailed   // a failed `assert` in the library
    | IndexError        // list indexing or `pop` out of range
    | ValueError        // a converter rejected its input (Python raises `ValueError` or `TypeError` there), or `str.split("")`
    | TypeError         // e.g. `sorted` over a mix of ints and strings
    | AttributeError    // a call to an attribute the class does not define

  datatype Result<+T> = Ok(value: T) | Err(error: Error)
}
