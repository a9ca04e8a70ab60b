/** Option and Result, the two failure-carrying wrappers the model uses. */
module Wrappers {

  /** `None` stands for an absent value (System.Text.Json's `Undefined` element). */
  datatype Option<+T> = None | Some(value: T)

  /** `Err` stands for an exception the source throws and a caller catches. */
  datatype Result<+T, +E> = Ok(value: T) | Err(error: E)
}
