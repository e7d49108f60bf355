/** What a `catch (error: unknown)` block can receive, and the
    `error instanceof Error ? error.message : fallback` idiom every catch
    block of the model uses. */
module Exceptions {

  datatype Thrown =
    | ErrorInstance(message: string)  // an `Error` (or subclass) object
    | NonError                        // any other thrown value

  /** The message a catch block reports. */
  function MessageOr(t: Thrown, fallback: string): (r: string)
    ensures t.ErrorInstance? ==> r == t.message
    ensures t.NonError? ==> r == fallback
  {
    match t
    case ErrorInstance(m) => m
    case NonError => fallback
  }
}
