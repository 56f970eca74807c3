/** How a modelled operation ends, and values that may be absent. */
module Outcomes {

  /** A returned value, or the exception raised instead. */
  datatype Result<+T> = Ok(value: T) | Raised

  datatype Option<+T> = None | Some(value: T)
}
