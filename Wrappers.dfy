/** Option and the exception-or-value wrapper used for the .NET calls that may throw. */
module Wrappers {

  /** A reference that may be null. */
  datatype Option<+T> = None | Some(value: T)

  /** The exceptions the translators can raise before their catch-all handlers absorb them. */
  datatype Exception =
    | ArgumentNull      // Regex.Match on a null string
    | NullReference     // a member used on a null reference
    | KeyNotFound(key: string)  // a dictionary indexer with a missing key
    | RuntimeBinder     // a dynamic member access on a token that has no such member
    | XmlException      // XDocument.Parse rejected its input
    | JsonException     // JObject.Parse rejected its input
    | FormatException   // DateTimeOffset.Parse rejected its input

  /** The outcome of a call that either returns a value or throws. */
  datatype Outcome<+T> = Returned(value: T) | Threw(exc: Exception) {

    predicate IsFailure() {
      Threw?
    }

    function PropagateFailure<U>(): Outcome<U>
      requires Threw?
    {
      Threw(exc)
    }

    function Extract(): T
      requires Returned?
    {
      value
    }
  }
}
