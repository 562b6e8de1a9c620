/** Optional values: `None` stands for the empty form field, the missing record or JavaScript's `NaN`. */
module Wrappers {

  datatype Option<+T> = None | Some(value: T)

  /** The outcome of a create or update request sent to the REST API. A failure carries the
      server's message, or `""` when the response had none. */
  datatype Outcome = Saved | Failed(message: string)

  /** The text shown after a failed request: the server's message, else the page's fallback
      (`err.response?.data?.message || fallback`). */
  function FailureText(message: string, fallback: string): (r: string)
    ensures message != "" ==> r == message
    ensures message == "" ==> r == fallback
  {
    if message != "" then message else fallback
  }
}
