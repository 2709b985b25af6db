/** The CountdownTimer component: the countdown text for a task's deadline,
    the deadline alert hook that feeds the warning snackbar, and the
    snackbar's close handler. */
module Countdown {
  import Clock
  import Snackbar
  import DeadlineAlerts

  class CountdownTimer {
    var deadline: int
    var timeRemaining: string
    const snackbar: Snackbar.Snackbar
    const alerts: DeadlineAlerts.AlertMonitor

    /** The alert hook watches the component's own deadline. */
    ghost predicate Valid()
      reads this, alerts
    {
      alerts.Valid() && alerts.deadline == deadline
    }

    /** Mounting the component: the snackbar starts closed, every alert flag
        starts down, and the countdown effect computes the text at once. */
    constructor (deadline: int, now: int)
      ensures Valid() && fresh(snackbar) && fresh(alerts)
      ensures this.deadline == deadline && timeRemaining == Clock.Format(deadline - now)
      ensures alerts.State() == DeadlineAlerts.NoneTriggered && alerts.sent == []
      ensures !snackbar.open && snackbar.message == ""
    {
      this.deadline := deadline;
      snackbar := new Snackbar.Snackbar();
      alerts := new DeadlineAlerts.AlertMonitor(deadline);
      timeRemaining := Clock.Format(deadline - now);
    }

    /** calculateTimeRemaining at time now. */
    method Refresh(now: int)
      modifies this`timeRemaining
      ensures timeRemaining == Clock.Format(old(deadline) - now)
    {
      timeRemaining := Clock.Format(deadline - now);
    }

    /** One tick of the alert hook at time now, with handleAlert as its
        callback: the snackbar ends up open on the last warning sent. */
    method CheckAlerts(status: string, now: int) returns (fired: seq<DeadlineAlerts.Threshold>)
      requires Valid()
      modifies alerts, snackbar
      ensures Valid()
      ensures DeadlineAlerts.Step(alerts.State(), fired)
              == DeadlineAlerts.TickSpec(old(alerts.State()), status, deadline - now)
      ensures alerts.sent == old(alerts.sent) + fired
      ensures snackbar.open == (old(snackbar.open) || fired != [])
      ensures snackbar.message == DeadlineAlerts.Displayed(old(snackbar.message), fired)
    {
      fired := alerts.Tick(status, now, snackbar);
    }

    /** handleClose. */
    method CloseAlert(reason: Snackbar.Reason)
      modifies snackbar
      ensures snackbar.open == (old(snackbar.open) && !Snackbar.Closes(reason))
      ensures snackbar.message == old(snackbar.message)
    {
      snackbar.Close(reason);
    }

    /** A new deadline: both effects run again, so the countdown is recomputed
        at once, but the alert flags are kept. */
    method ChangeDeadline(d: int, now: int)
      requires Valid()
      modifies this`deadline, this`timeRemaining, alerts`deadline
      ensures Valid()
      ensures deadline == d && timeRemaining == Clock.Format(d - now)
      ensures alerts.State() == old(alerts.State()) && alerts.sent == old(alerts.sent)
    {
      deadline := d;
      alerts.SetDeadline(d);
      timeRemaining := Clock.Format(d - now);
    }
  }
}
