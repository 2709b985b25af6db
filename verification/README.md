# Deadline alerts and countdown of TaskManagement

This project models the deadline monitor of the TaskManagement web client: the
`useDeadlineAlerts` hook and the `CountdownTimer` component that uses it.

- `useDeadlineAlerts` keeps three one-shot flags (week, day, hour). On each tick
  of its interval, `checkThresholds` computes the milliseconds left before the
  deadline. If the task is not "Completed" and the deadline has not passed, it
  checks the three thresholds in the order week, day, hour. A threshold whose
  flag is down and whose limit has been reached sends its warning text to the
  alert callback and raises its flag.
- `CountdownTimer` renders the time left as "Deadline passed" or as
  `HH:MM:SS`. The hour field is unbounded. Every field is the decimal number
  left-padded with '0' to two digits. The component passes `handleAlert` to the
  hook as its callback. `handleAlert` puts the warning into a snackbar and
  opens it. `handleClose` shuts the snackbar, unless the close request is a
  click-away.

Modules:

- `Clock` (`clock.dfy`): pure functions. `Split` turns milliseconds into hours,
  minutes and seconds. `Decimal`, `PadStart` and `PadTwo` write one field.
  `Render` and `Format` build the text. `Parse` reads a countdown back, as the
  inverse against which `Format` is proved.
- `Snackbar` (`snackbar.dfy`): a class with the `open` and `message` state of
  the component. `Show` is `handleAlert`; `Close` is `handleClose`.
- `DeadlineAlerts` (`deadline_alerts.dfy`): `TickSpec` is one run of
  `checkThresholds` as a function of the flags, the status and the time left.
  `Run` folds it over any sequence of ticks; the deadline may change between
  ticks. The class `AlertMonitor` holds the deadline and the three flags, and
  its `Tick` method is proved against `TickSpec`. A ghost history `sent`
  records every warning handed to the callback.
- `Countdown` (`countdown_timer.dfy`): the class `CountdownTimer` wires the
  countdown text, the alert monitor and the snackbar together.

The current time is a parameter of every operation; time is an integer number
of milliseconds. One call of `Tick` or `Refresh` stands for one interval tick.

Where the documented design and the code differ, the model follows the code:

- The design says a new deadline resets the three flags. In the code the flags
  are React state that only `checkThresholds` ever sets, so a new deadline keeps
  them. `AlertMonitor.SetDeadline` keeps them, and `SentAlertNeverRepeats` proves
  that a warning once sent is never sent again, whatever the later deadlines.
- The design says an unparseable deadline reads as "Deadline passed". In the
  code the difference is then NaN, `NaN <= 0` is false, and the countdown reads
  "NaN:NaN:NaN". Deadlines here are integers, so that path is not modelled (see
  "Left out").

## Model

| member | source | states |
|---|---|---|
| Clock.Split | src/components/CountdownTimer.jsx:26-28 | the three fields of a positive remaining time have minutes and seconds below 60 and add up to the remaining time rounded down to a whole second |
| Clock.SplitUnique | src/components/CountdownTimer.jsx:26-28 | any duration with minutes and seconds below 60 that rounds the remaining time down to a whole second is the one Split computes |
| Clock.Decimal | src/components/CountdownTimer.jsx:30 | Number.prototype.toString of a non-negative integer: at least one digit, all digits, denotes the number, no leading zero |
| Clock.PadStart | src/components/CountdownTimer.jsx:30 | padStart gives length max(width, length), keeps the string as its suffix and fills the front with the fill character |
| Clock.PadTwo | src/components/CountdownTimer.jsx:30-32 | a padded field has at least two digits, still denotes its number, is exactly two long below 10 and is the plain decimal from 10 on (never truncated) |
| Clock.ValueLeadingZeros | src/components/CountdownTimer.jsx:30-32 | padding with '0' does not change the number a field denotes |
| Clock.Render | src/components/CountdownTimer.jsx:29-32 | the countdown text has at least 8 characters, starts with a digit and holds exactly two ':' |
| Clock.Format | src/components/CountdownTimer.jsx:18-35 | no time left gives "Deadline passed"; time left gives a text of at least 8 characters with two ':' that is never "Deadline passed" |
| Clock.JoinParse | src/components/CountdownTimer.jsx:29-32 | three digit fields joined with ':' read back as their three values |
| Clock.RenderParse | src/components/CountdownTimer.jsx:29-32 | reading a rendered duration back gives the same duration |
| Clock.FormatParse | src/components/CountdownTimer.jsx:21-34 | the countdown text determines the remaining time to the second; "Deadline passed" reads back as no duration |
| Snackbar.Snackbar.constructor | src/components/CountdownTimer.jsx:7-8 | the snackbar starts closed with an empty message |
| Snackbar.Snackbar.Show | src/components/CountdownTimer.jsx:10-13 | handleAlert opens the snackbar on the new message |
| Snackbar.Snackbar.Close | src/components/CountdownTimer.jsx:43-48 | a click-away leaves the snackbar as it was; any other reason shuts it; the message is kept |
| DeadlineAlerts.TickSpec | src/hooks/useDeadlineAlerts.js:24-54 | a completed task or a passed deadline changes nothing; more than a week away nothing is sent; each flag ends up set exactly when it was set or its threshold is reached, and no flag is lowered |
| DeadlineAlerts.TickSendsRaised | src/hooks/useDeadlineAlerts.js:40-53 | one tick sends a threshold's warning exactly when it raises that threshold's flag, once |
| DeadlineAlerts.TickOrder | src/hooks/useDeadlineAlerts.js:40-53 | the warnings of one tick come week before day before hour without repeats; with no flag set, the first tick within an hour sends all three in that order |
| DeadlineAlerts.RunSendsEachOnce | src/hooks/useDeadlineAlerts.js:11-53 | over any sequence of ticks and deadlines the flags only go up, and each warning is sent exactly once if its flag was raised during the run and never otherwise |
| DeadlineAlerts.AtMostThreeAlerts | src/hooks/useDeadlineAlerts.js:11-53 | from the initial flags at most three warnings are ever sent, and no warning twice |
| DeadlineAlerts.SentAlertNeverRepeats | src/hooks/useDeadlineAlerts.js:40-53 | a warning whose flag is set is never sent again, whatever the later ticks, statuses and deadlines |
| DeadlineAlerts.OccurrencesTotal | src/hooks/useDeadlineAlerts.js:40-53 | a list of warnings is as long as its week, day and hour entries together |
| DeadlineAlerts.DisplayedConcat | src/components/CountdownTimer.jsx:10-13 | handing two lists of warnings to handleAlert one after the other leaves the same message as handing over both at once |
| DeadlineAlerts.TickExtendsHistory | src/hooks/useDeadlineAlerts.js:40-53 | a history of sent warnings that agrees with the flags still agrees after one more tick |
| DeadlineAlerts.AlertMonitor.constructor | src/hooks/useDeadlineAlerts.js:11-15 | all three flags start down and nothing has been sent |
| DeadlineAlerts.AlertMonitor.Tick | src/hooks/useDeadlineAlerts.js:24-54 | one checkThresholds call moves the flags and sends the warnings as TickSpec says, records them in the history, opens the snackbar when it sends anything and leaves the last warning on display |
| DeadlineAlerts.AlertMonitor.Check | src/hooks/useDeadlineAlerts.js:40-43 | one guarded block: when the flag is down and the limit is reached, the warning goes to the snackbar and the flag goes up; otherwise nothing changes |
| DeadlineAlerts.AlertMonitor.SetDeadline | src/hooks/useDeadlineAlerts.js:59 | a new deadline keeps the flags and the history |
| Countdown.CountdownTimer.constructor | src/components/CountdownTimer.jsx:5-15 | on mount the countdown text is computed at once, every flag is down and the snackbar is closed and empty |
| Countdown.CountdownTimer.Refresh | src/components/CountdownTimer.jsx:37-38 | a countdown tick sets the text to Format of the time left |
| Countdown.CountdownTimer.CheckAlerts | src/components/CountdownTimer.jsx:10-15 | an alert tick with handleAlert as callback behaves as AlertMonitor.Tick on the component's snackbar |
| Countdown.CountdownTimer.CloseAlert | src/components/CountdownTimer.jsx:55-61 | both the snackbar and its alert close through handleClose |
| Countdown.CountdownTimer.ChangeDeadline | src/components/CountdownTimer.jsx:37-40 | a new deadline recomputes the countdown text at once and keeps the alert flags and history |

## Left out

- Timers: `setInterval`, `clearInterval`, the effect clean-ups and the order in
  which the countdown interval and the alert interval fire are not modelled.
  One method call stands for one tick. The alert effect lists `onAlert` among
  its dependencies, and `handleAlert` is a new function on every render, so the
  alert interval is restarted after each render. The model assumes every alert
  tick runs.
- Dates: `new Date(deadline)` and `new Date()` are outside the model. The
  deadline and the current time are integers of milliseconds, and their
  difference is an integer. An unparseable deadline (a NaN difference, shown as
  "NaN:NaN:NaN" and sending no warning) is not modelled.
- The snackbar's four-second auto-hide is not modelled as time. Its timeout
  reaches `handleClose` with a reason other than "clickaway", which `Close`
  covers.
- Rendering (the JSX markup, the anchor position, the severity) is not modelled.
- The status is any string; only "Completed" stops the checks. The dashboard
  renders `CountdownTimer` without a status, which the model covers as any
  status other than "Completed".
- Within one tick the code reads the flag snapshot of the last render, while
  `Check` reads the flags as updated by the blocks before it. Each block reads
  and sets only its own flag, so the two agree.
- The rest of the client (login, task lists and forms, reports, the API
  service) is not part of this model.
