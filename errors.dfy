/** The fatal-error helper `must` of the NUS console bridge: every failure of a
    call into the BLE stack ends the process with an action-tagged message. */
module Errors {

  datatype Option<+T> = None | Some(value: T)

  /** What happens after `must`: the caller carries on, or the process aborts
      (a Go panic) with the given message. */
  datatype Outcome = Pass | Abort(message: string)

  /** The text that precedes the error in an abort message for `action`. */
  function Tag(action: string): string {
    "failed to " + action + ": "
  }

  /** `must(action, err)`: returns normally exactly when there is no error;
      otherwise aborts with a message made of the tag for `action` followed by
      the error text. */
  function Must(action: string, err: Option<string>): (r: Outcome)
    ensures r.Pass? <==> err.None?
    ensures r.Abort? ==> Tag(action) <= r.message
    ensures r.Abort? ==> r.message[|Tag(action)|..] == err.value
  {
    match err
    case None => Pass
    case Some(e) => Abort(Tag(action) + e)
  }

  /** A corollary of the contract of `Must`: for one action, the abort
      message determines the error it reports. */
  lemma MustKeepsError(action: string, e1: string, e2: string)
    requires Must(action, Some(e1)) == Must(action, Some(e2))
    ensures e1 == e2
  {
    var m := Must(action, Some(e1)).message;
    assert e1 == m[|Tag(action)|..] == e2;
  }
}
