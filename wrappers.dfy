/** Option and Outcome, used for the values the source leaves `undefined`
    and for the calls that throw. */
module Wrappers {

  datatype Option<+T> = None | Some(value: T)

  /** `Fail` stands for a thrown `Error`; the message is not modelled. */
  datatype Outcome = Pass | Fail
}
