/** The optional-value type shared by the booking-frequency model. */
module Wrappers {

  /** Some value, or nothing (an empty cell, an unset selector, no window chosen). */
  datatype Option<+T> = None | Some(value: T)
}
