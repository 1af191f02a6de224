/** The error codes of the library, shared by the native code and the Java facade. */
module Errors {
  const SESSION_EXISTS_ERR: int := -9998
  const NO_SESSION_ERR: int := -9997
  const INVALID_RESULT: int := -9996

  /** The three codes differ from each other and from every exit status a shell can report. */
  lemma ErrorsAreDistinct(status: int)
    requires 0 <= status <= 255
    ensures INVALID_RESULT != NO_SESSION_ERR && NO_SESSION_ERR != SESSION_EXISTS_ERR
    ensures INVALID_RESULT != SESSION_EXISTS_ERR
    ensures status != INVALID_RESULT && status != NO_SESSION_ERR && status != SESSION_EXISTS_ERR
    ensures {SESSION_EXISTS_ERR, NO_SESSION_ERR, INVALID_RESULT} == {-9998, -9997, -9996}
  {
  }
}
