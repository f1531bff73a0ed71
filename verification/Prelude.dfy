/** Outcomes shared by every module: an optional value, and a value or the exception raised instead. */
module Prelude {

  datatype Option<+T> = None | Some(value: T)

  datatype Result<+T, +E> = Ok(value: T) | Raised(error: E)

  /** How a device takes a push: applied; silently refused; connection lost before or after it took effect. */
  datatype Fault = Healthy | Refuses | LostBefore | LostAfter
}
