/** Failure-carrying values shared by every module of the model.

  The Python code signals failure by raising exceptions; each exception kind
  the modelled code can raise becomes one constructor of `Error`, and every
  operation that can raise returns a `Result`.
 */
module Results {

  /** The exception kinds the modelled code raises or lets through. */
  datatype Error =
    | KeyError                      // subscript access to a missing key
    | AttributeError                // attribute access to a missing attribute
    | AssertionError                // a failed `assert` in the source
    | TypeError                     // an argument of the wrong kind
    | FileNotFound                  // opening a file that does not exist
    | ValueError                    // a file whose contents do not parse
    | OtherError(description: string)

  datatype Option<+T> = None | Some(value: T)

  datatype Result<+T> = Ok(value: T) | Err(error: Error) {

    predicate IsFailure() {
      Err?
    }

    function PropagateFailure<U>(): Result<U>
      requires Err?
    {
      Err(error)
    }

    function Extract(): T
      requires Ok?
    {
      value
    }
  }
}
