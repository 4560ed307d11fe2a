/** The exceptions the automation script raises or lets through, and the
    value-or-exception result every modelled operation returns. */
module Outcomes {

  /** WindowNotFound, ButtonNotFound and WindowNotActive are the script's own
      exception classes; Foreign stands for any other exception, which the
      matching library may raise and which no handler of the script catches. */
  datatype Fault = WindowNotFound | ButtonNotFound | WindowNotActive | Foreign

  /** A fault the process loop catches and counts against its retry limit. */
  predicate Counted(f: Fault)
  {
    f != Foreign
  }

  /** The result of a call: a returned value, or the exception it raised. */
  datatype Outcome<+T> = Ok(value: T) | Raised(fault: Fault)

  datatype Option<+T> = None | Some(value: T)
}
