/** Option and Result types, and the failures the command-line client can raise.

    The client is written in a language where every failure is an exception; in
    this model each exception the modelled code can raise becomes one `Error`
    variant and every partial operation returns a `Result`.
 */
module Outcomes {

  datatype Option<+T> = None | Some(value: T)

  datatype Result<+T> = Ok(value: T) | Err(error: Error) {

    predicate IsFailure() {
      Err?
    }

    function PropagateFailure<U>(): Result<U>
      requires Err?
    {
      Err(error)
    }

    function Extract(): T
      requires Ok?
    {
      value
    }
  }

  datatype Error =
      /** A dictionary lookup of a key that is absent (a `KeyError`). */
    | KeyNotFound(key: string)
      /** Indexing a JSON value that is not an object with a string key (a `TypeError`). */
    | NotAnObject(key: string)
      /** Unpacking the two halves of `text.split(sep, 1)` when `sep` does not occur (a `ValueError`). */
    | MissingSeparator(text: string, sep: string)
      /** Reading the last-page URL when no link entry had relation `last` (an `UnboundLocalError`). */
    | LastUnbound
      /** Asking for a logical API name that is absent or maps to an empty template. */
    | EndpointNotFound(name: string)
}
