/** Failure-carrying values used in place of the exceptions the scheduler raises. */
module Results {

  /** The exception kinds the modelled code raises. */
  datatype Error =
    | TypeError            // a missing value or a value of the wrong kind
    | ValueError           // a value of the right kind outside its allowed range
    | NotImplementedError  // an equality test between different entity kinds
    | DataNotFoundError    // an input line without its three fields
    | AttributeError       // a read of an attribute that was never assigned
    | RuntimeError         // an internal consistency fault

  datatype Option<+T> = None | Some(value: T)

  datatype Result<+T> = Ok(value: T) | Err(error: Error)

  /** The outcome of an operation that only succeeds or raises. */
  datatype Outcome = Pass | Fail(error: Error)
}
