/** Results of operations that may raise. */
module Outcomes {

  datatype Option<+T> = None | Some(value: T)

  /** `Broken` is a raised BrokenMessageError (or its subclass BufferExhaustedError), which callers
      catch and turn into "not this message".  `Crash` is any other exception (ValueError, KeyError,
      AttributeError, TypeError), which those callers do not catch. */
  datatype Outcome<+T> = Ok(value: T) | Broken | Crash
}
