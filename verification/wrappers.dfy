/** Failure-carrying datatypes used for the JavaScript functions that either return a value
    or throw an Error whose `message` is a string. */
module Wrappers {

  /** A value that may be absent; `None` also stands for JavaScript's NaN where a number is parsed. */
  datatype Option<+T> = None | Some(value: T)

  /** The value of a function that returns normally, or the message of the Error it throws. */
  datatype Result<+T> = Ok(value: T) | Err(message: string)

  /** A step that either completes or fails with a message, without a value. */
  datatype Outcome = Pass | Fail(message: string)
}
