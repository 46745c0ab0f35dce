/** Failure-carrying values shared by the plugin model.
    JavaScript's `undefined` is `None`; an exception thrown by a property read
    or a call on `undefined` is `Err`. */
module Wrappers {

  datatype Option<+T> = None | Some(value: T)

  /** The two ways the plugin code fails at run time. */
  datatype Error =
    | UndefinedRead   // reading a property (`getEntity`, `[0]`) of `undefined`
    | UndefinedCall   // calling `undefined` as a function

  datatype Result<+T> = Ok(value: T) | Err(error: Error)
}
