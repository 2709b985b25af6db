/** The deadline alert hook: on every tick it compares the time left before
    the deadline with three fixed thresholds (a week, a day, an hour) and sends
    each threshold's warning once, guarded by a one-shot flag per threshold. */
module DeadlineAlerts {
  import Snackbar

  const Completed: string := "Completed"

  const OneWeek: int := 7 * 24 * 60 * 60 * 1000
  const OneDay: int := 24 * 60 * 60 * 1000
  const OneHour: int := 60 * 60 * 1000

  /** The three thresholds, in the order the hook checks them. */
  datatype Threshold = Week | Day | Hour

  /** The milliseconds left at or below which a threshold's warning is due. */
  function Limit(k: Threshold): int {
    match k
    case Week => OneWeek
    case Day => OneDay
    case Hour => OneHour
  }

  /** The text handed to the alert callback for each threshold. */
  function Message(k: Threshold): string {
    match k
    case Week => "Less than one week remaining to complete the task!"
    case Day => "Less than one day remaining to complete the task!"
    case Hour => "Less than one hour remaining to complete the task!"
  }

  /** The position of a threshold in the order the hook checks them. */
  function Rank(k: Threshold): nat {
    match k
    case Week => 0
    case Day => 1
    case Hour => 2
  }

  /** The alertsTriggered record: which warnings have already been sent. */
  datatype Triggered = Triggered(week: bool, day: bool, hour: bool)

  const NoneTriggered: Triggered := Triggered(false, false, false)

  function Flag(t: Triggered, k: Threshold): bool {
    match k
    case Week => t.week
    case Day => t.day
    case Hour => t.hour
  }

  /** t with k's flag set. */
  function Raise(t: Triggered, k: Threshold): Triggered {
    match k
    case Week => t.(week := true)
    case Day => t.(day := true)
    case Hour => t.(hour := true)
  }

  /** Every flag set in a is also set in b. */
  predicate Below(a: Triggered, b: Triggered) {
    (a.week ==> b.week) && (a.day ==> b.day) && (a.hour ==> b.hour)
  }

  /** How many times k's warning is sent while the flags go from a to b: once
      if k's flag was raised in between, otherwise never. */
  function Raised(a: Triggered, b: Triggered, k: Threshold): nat {
    if Flag(b, k) && !Flag(a, k) then 1 else 0
  }

  /** How many times k occurs in a list of warnings. */
  function Occurrences(s: seq<Threshold>, k: Threshold): nat {
    if s == [] then 0 else (if s[0] == k then 1 else 0) + Occurrences(s[1..], k)
  }

  lemma {:induction false} OccurrencesConcat(a: seq<Threshold>, b: seq<Threshold>, k: Threshold)
    ensures Occurrences(a + b, k) == Occurrences(a, k) + Occurrences(b, k)
    decreases |a|
  {
    if a == [] {
      assert a + b == b;
    } else {
      assert (a + b)[1..] == a[1..] + b;
      OccurrencesConcat(a[1..], b, k);
    }
  }

  /** A list of warnings is as long as its week, day and hour entries together. */
  lemma {:induction false} OccurrencesTotal(s: seq<Threshold>)
    ensures |s| == Occurrences(s, Week) + Occurrences(s, Day) + Occurrences(s, Hour)
    decreases |s|
  {
    if s != [] {
      OccurrencesTotal(s[1..]);
    }
  }

  /** Warnings in strictly increasing threshold order: no repeats, week before
      day before hour. */
  predicate Ordered(alerts: seq<Threshold>) {
    forall i, j :: 0 <= i < j < |alerts| ==> Rank(alerts[i]) < Rank(alerts[j])
  }

  /** The flags after a tick and the warnings it sent, in order. */
  datatype Step = Step(triggered: Triggered, alerts: seq<Threshold>)

  /** The warnings one guarded check sends: k's, if the check fires. */
  function Emit(fires: bool, k: Threshold): seq<Threshold> {
    if fires then [k] else []
  }

  /** Whether the guarded block for k fires: k's flag is down and the time
      left is within k's limit. */
  predicate Due(t: Triggered, k: Threshold, diff: int) {
    !Flag(t, k) && diff <= Limit(k)
  }

  /** The flags after the guarded block for k. */
  function Apply(t: Triggered, k: Threshold, diff: int): Triggered {
    if Due(t, k, diff) then Raise(t, k) else t
  }

  /** One run of checkThresholds with the flags t, the task status and the
      milliseconds left before the deadline: the three guarded blocks in turn. */
  function TickSpec(t: Triggered, status: string, diff: int): (r: Step)
    // a completed task, or a deadline that has passed, changes nothing
    ensures status == Completed || diff <= 0 ==> r == Step(t, [])
    // more than a week away, nothing is sent
    ensures diff > OneWeek ==> r == Step(t, [])
    // each flag is raised exactly when its threshold is reached, and never lowered
    ensures Below(t, r.triggered)
    ensures r.triggered.week == (t.week || (status != Completed && 0 < diff <= OneWeek))
    ensures r.triggered.day == (t.day || (status != Completed && 0 < diff <= OneDay))
    ensures r.triggered.hour == (t.hour || (status != Completed && 0 < diff <= OneHour))
  {
    if status == Completed || diff <= 0 then Step(t, [])
    else
      var t1 := Apply(t, Week, diff);
      var t2 := Apply(t1, Day, diff);
      var t3 := Apply(t2, Hour, diff);
      Step(t3, Emit(Due(t, Week, diff), Week) + Emit(Due(t1, Day, diff), Day) + Emit(Due(t2, Hour, diff), Hour))
  }

  lemma OccurrencesEmit(fires: bool, j: Threshold, k: Threshold)
    ensures Occurrences(Emit(fires, j), k) == if fires && j == k then 1 else 0
  {
  }

  /** A tick sends a warning exactly when it raises that warning's flag. */
  lemma TickSendsRaised(t: Triggered, status: string, diff: int, k: Threshold)
    ensures Occurrences(TickSpec(t, status, diff).alerts, k) == Raised(t, TickSpec(t, status, diff).triggered, k)
  {
    if status != Completed && diff > 0 {
      var t1 := Apply(t, Week, diff);
      var t2 := Apply(t1, Day, diff);
      var w := Emit(Due(t, Week, diff), Week);
      var d := Emit(Due(t1, Day, diff), Day);
      var h := Emit(Due(t2, Hour, diff), Hour);
      assert TickSpec(t, status, diff).alerts == w + d + h;
      OccurrencesConcat(w, d, k);
      OccurrencesConcat(w + d, h, k);
      OccurrencesEmit(Due(t, Week, diff), Week, k);
      OccurrencesEmit(Due(t1, Day, diff), Day, k);
      OccurrencesEmit(Due(t2, Hour, diff), Hour, k);
    }
  }

  /** The warnings of one tick come in the order week, day, hour; the first
      tick inside the last hour sends all three. */
  lemma TickOrder(t: Triggered, status: string, diff: int)
    ensures Ordered(TickSpec(t, status, diff).alerts)
    ensures t == NoneTriggered && status != Completed && 0 < diff <= OneHour ==>
              TickSpec(t, status, diff).alerts == [Week, Day, Hour]
  {
    if status != Completed && diff > 0 {
      var t1 := Apply(t, Week, diff);
      var t2 := Apply(t1, Day, diff);
      var w := Emit(Due(t, Week, diff), Week);
      var d := Emit(Due(t1, Day, diff), Day);
      var h := Emit(Due(t2, Hour, diff), Hour);
      assert TickSpec(t, status, diff).alerts == w + d + h;
    }
  }

  /** One evaluation of the hook: the task status and the milliseconds left. */
  datatype Tick = Tick(status: string, diff: int)

  /** A sequence of ticks run from the flags t: the final flags and every
      warning sent, in order. The deadline may differ from tick to tick. */
  function Run(t: Triggered, ticks: seq<Tick>): (r: Step)
    decreases |ticks|
  {
    if ticks == [] then Step(t, [])
    else
      var first := TickSpec(t, ticks[0].status, ticks[0].diff);
      var rest := Run(first.triggered, ticks[1..]);
      Step(rest.triggered, first.alerts + rest.alerts)
  }

  /** Over any run of ticks the flags only go up, and each warning is sent
      exactly once if its flag was raised during the run, never otherwise. */
  lemma {:induction false} RunSendsEachOnce(t: Triggered, ticks: seq<Tick>, k: Threshold)
    ensures Below(t, Run(t, ticks).triggered)
    ensures Occurrences(Run(t, ticks).alerts, k) == Raised(t, Run(t, ticks).triggered, k)
    decreases |ticks|
  {
    if ticks != [] {
      var first := TickSpec(t, ticks[0].status, ticks[0].diff);
      var rest := Run(first.triggered, ticks[1..]);
      TickSendsRaised(t, ticks[0].status, ticks[0].diff, k);
      RunSendsEachOnce(first.triggered, ticks[1..], k);
      OccurrencesConcat(first.alerts, rest.alerts, k);
    }
  }

  /** From the initial state a monitor sends at most three warnings in all and
      never the same warning twice, whatever the ticks and deadlines. */
  lemma AtMostThreeAlerts(ticks: seq<Tick>)
    ensures |Run(NoneTriggered, ticks).alerts| <= 3
    ensures forall k :: Occurrences(Run(NoneTriggered, ticks).alerts, k) <= 1
  {
    var alerts := Run(NoneTriggered, ticks).alerts;
    forall k ensures Occurrences(alerts, k) <= 1 {
      RunSendsEachOnce(NoneTriggered, ticks, k);
    }
    OccurrencesTotal(alerts);
  }

  /** A warning already sent is never sent again, even when the deadline moves
      on: the flags are not reset. */
  lemma SentAlertNeverRepeats(t: Triggered, ticks: seq<Tick>, k: Threshold)
    requires Flag(t, k)
    ensures k !in Run(t, ticks).alerts
  {
    var alerts := Run(t, ticks).alerts;
    RunSendsEachOnce(t, ticks, k);
    if k in alerts {
      var i :| 0 <= i < |alerts| && alerts[i] == k;
      assert alerts == alerts[..i] + alerts[i..];
      OccurrencesConcat(alerts[..i], alerts[i..], k);
    }
  }

  /** The snackbar message after the alert callback has been handed the
      warnings of alerts in turn, starting from message: each call replaces the
      message, so the last warning is the one on display. */
  function Displayed(message: string, alerts: seq<Threshold>): string {
    if alerts == [] then message else Message(alerts[|alerts| - 1])
  }

  lemma DisplayedConcat(message: string, a: seq<Threshold>, b: seq<Threshold>)
    ensures Displayed(Displayed(message, a), b) == Displayed(message, a + b)
  {
    if b != [] {
      assert (a + b)[|a + b| - 1] == b[|b| - 1];
    } else {
      assert a + b == a;
    }
  }

  /** The sent history agrees with the flags: each warning sent once if its
      flag is set and never otherwise. */
  ghost predicate Matches(sent: seq<Threshold>, t: Triggered) {
    Occurrences(sent, Week) == Raised(NoneTriggered, t, Week) &&
    Occurrences(sent, Day) == Raised(NoneTriggered, t, Day) &&
    Occurrences(sent, Hour) == Raised(NoneTriggered, t, Hour)
  }

  /** Appending one tick's warnings to a history that matches the flags gives
      a history that matches the new flags. */
  lemma TickExtendsHistory(sent: seq<Threshold>, t: Triggered, status: string, diff: int)
    requires Matches(sent, t)
    ensures Matches(sent + TickSpec(t, status, diff).alerts, TickSpec(t, status, diff).triggered)
  {
    var r := TickSpec(t, status, diff);
    TickSendsRaised(t, status, diff, Week);
    TickSendsRaised(t, status, diff, Day);
    TickSendsRaised(t, status, diff, Hour);
    OccurrencesConcat(sent, r.alerts, Week);
    OccurrencesConcat(sent, r.alerts, Day);
    OccurrencesConcat(sent, r.alerts, Hour);
  }

  /** The hook's state: the deadline it watches and its three flags. The ghost
      history records every warning handed to the alert callback. */
  class AlertMonitor {
    var deadline: int
    var week: bool
    var day: bool
    var hour: bool
    ghost var sent: seq<Threshold>

    function State(): Triggered
      reads this
    {
      Triggered(week, day, hour)
    }

    ghost predicate Valid()
      reads this
    {
      Matches(sent, State())
    }

    /** useState: all flags start false. */
    constructor (deadline: int)
      ensures Valid()
      ensures this.deadline == deadline && State() == NoneTriggered && sent == []
    {
      this.deadline := deadline;
      week, day, hour := false, false, false;
      sent := [];
    }

    /** checkThresholds at time now, sending each warning to the sink. */
    method Tick(status: string, now: int, sink: Snackbar.Snackbar) returns (fired: seq<Threshold>)
      requires Valid()
      modifies this, sink
      ensures Valid()
      ensures deadline == old(deadline)
      ensures Step(State(), fired) == TickSpec(old(State()), status, deadline - now)
      ensures sent == old(sent) + fired
      ensures sink.open == (old(sink.open) || fired != [])
      ensures sink.message == Displayed(old(sink.message), fired)
    {
      fired := [];
      if status == Completed {
        return;
      }
      var diff := deadline - now;
      if diff <= 0 {
        return;
      }
      ghost var t := State();
      TickExtendsHistory(sent, t, status, diff);
      var w := Check(Week, diff, sink);
      var d := Check(Day, diff, sink);
      var h := Check(Hour, diff, sink);
      fired := w + d + h;
      DisplayedConcat(old(sink.message), w, d);
      DisplayedConcat(old(sink.message), w + d, h);
      sent := sent + fired;
    }

    /** One guarded block of checkThresholds: k's warning goes to the sink and
        k's flag is raised when the flag is down and the time left is within
        k's limit; otherwise nothing happens. */
    method Check(k: Threshold, diff: int, sink: Snackbar.Snackbar) returns (fired: seq<Threshold>)
      modifies this, sink
      ensures fired == Emit(Due(old(State()), k, diff), k)
      ensures State() == Apply(old(State()), k, diff)
      ensures deadline == old(deadline) && sent == old(sent)
      ensures sink.open == (old(sink.open) || fired != [])
      ensures sink.message == Displayed(old(sink.message), fired)
    {
      fired := [];
      if Due(State(), k, diff) {
        sink.Show(Message(k));
        fired := [k];
        match k
        case Week => week := true;
        case Day => day := true;
        case Hour => hour := true;
      }
    }

    /** A new deadline re-runs the hook's effect but keeps the flags. */
    method SetDeadline(d: int)
      requires Valid()
      modifies this`deadline
      ensures Valid()
      ensures deadline == d && State() == old(State()) && sent == old(sent)
    {
      deadline := d;
    }
  }
}
