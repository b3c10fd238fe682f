/** Option and a small failure type, used for Python's `None` and for the
    exceptions the game code lets escape. */
module Wrappers {

  datatype Option<+T> = None | Some(value: T)

  /** The Python exceptions the modelled code can raise. */
  datatype PyError =
    | KeyError     // a dictionary lookup on a missing key
    | IndexError   // `random.choice` on an empty sequence
    | TypeError    // an operation on an attribute that is still `None`
    | ZeroDivisionError

  datatype Outcome = Done | Raised(error: PyError)

  datatype Result<+T> = Ok(value: T) | Err(error: PyError)
}
