/** Failure-carrying values shared by every module of the model. */
module Results {

  datatype Option<+T> = None | Some(value: T) {
    function GetOr(default: T): T {
      if Some? then value else default
    }
  }

  /** An operation's value, or the error message the source would return. */
  datatype Result<+T> = Ok(value: T) | Err(msg: string)
}
