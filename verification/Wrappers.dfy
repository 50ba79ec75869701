/** Result types shared by every module: a missing value, a thrown error. */
module Wrappers {
  datatype Option<+T> = None | Some(value: T)

  /** What a call that may throw gives back: a value, or the error's message. */
  datatype Outcome<+T> = Returned(result: T) | Threw(message: string)
}
