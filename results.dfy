/** Outcome types for the places where the Go code returns an `error` or calls
    `errLog` (which logs and exits the process): here they become values. */
module Results {

  datatype Option<+T> = None | Some(value: T)

  /** A computation that either yields a value or stops with a message. */
  datatype Result<+T> = Ok(value: T) | Err(msg: string)

  /** What a cobra `Args` validator returns: nil (Pass) or an error (Fail). */
  datatype Outcome = Pass | Fail(msg: string)
}
