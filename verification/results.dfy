/** Failure-compatible wrappers shared by every module of the model.
    `Error` names the ways the JavaScript code rejects or throws. */
module Results {

  datatype Option<+T> = None | Some(value: T)

  /** A thrown exception or a rejected promise of the original code. */
  datatype Error =
    | TypeError(message: string)    // a JavaScript TypeError (bad argument, missing regex match)
    | FetchFailed(url: string)      // the HTTP client reported an error for this URL

  datatype Result<+T> = Ok(value: T) | Err(error: Error) {

    predicate IsFailure() {
      Err?
    }

    function PropagateFailure<U>(): Result<U>
      requires Err?
    {
      Err(error)
    }

    function Extract(): T
      requires Ok?
    {
      value
    }
  }
}
