/** The warning snackbar of CountdownTimer: whether it is open and which
    message it shows. handleAlert opens it on a new message; handleClose shuts
    it unless the close request came from a click elsewhere on the page. */
module Snackbar {

  const ClickAway: string := "clickaway"

  /** The reason handed to the close handler; the Alert's own close button
      passes none. */
  datatype Reason = NoReason | Reason(text: string)

  /** Whether a close request with this reason shuts the snackbar. */
  predicate Closes(reason: Reason) {
    reason != Reason(ClickAway)
  }

  class Snackbar {
    var open: bool
    var message: string

    /** The component's initial state: closed, with an empty message. */
    constructor ()
      ensures !open && message == ""
    {
      open := false;
      message := "";
    }

    /** handleAlert: show the new message, replacing the previous one. */
    method Show(m: string)
      modifies this
      ensures open && message == m
    {
      message := m;
      open := true;
    }

    /** handleClose: a click-away leaves the snackbar as it was; any other
        reason (the timeout, the close button) shuts it. The message stays. */
    method Close(reason: Reason)
      modifies this
      ensures open == (old(open) && !Closes(reason))
      ensures message == old(message)
    {
      if reason == Reason(ClickAway) {
        return;
      }
      open := false;
    }
  }
}
