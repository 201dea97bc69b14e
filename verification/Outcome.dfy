/** A Python call either returns a value or raises; a Python value may be None. */
module Outcome {
  datatype Outcome<+T> = Returned(value: T) | Raised

  datatype Option<+T> = None | Some(value: T)
}
