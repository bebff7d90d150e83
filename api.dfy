/** The answer of a server function of the admin, participant and ops APIs. */
module Api {

  /** What a call hands back: the issues its input validator found (the handler does not run), the
      message of an error its handler throws, or the handler's result. */
  datatype Response<+T> = InvalidInput(issues: seq<string>) | Thrown(message: string) | Answered(value: T)

  /** One validator check: no issue when it passes, its message when it fails. */
  function Check(ok: bool, message: string): (issues: seq<string>)
    ensures issues == [] <==> ok
    ensures !ok ==> issues == [message]
  {
    if ok then [] else [message]
  }
}
