/** Result types, and a limit of Python's, shared by the models. */
module Outcomes {

  datatype Option<+T> = None | Some(value: T)

  /** What a Python call returned, or that it raised. */
  datatype Result<+T> = Ok(value: T) | Raised

  /** Python refuses to convert longer digit strings to an int (its default limit). */
  const MAX_INT_DIGITS: nat := 4300
}
