# Pomodoro session clock in Dafny

A model of the session clock of a Pomodoro work/break timer: the `PomodoroTimer`
class in `src/pomodoro.ts`, which alternates work and break sessions. It counts
down once per second while running. It accounts the seconds spent working and
the pomodoros completed. It switches to the other session when the countdown
runs out and then restarts on its own. It notifies registered listeners on
every change of its state and on every completion. The module also models the display
helpers of the same file: `formatTime`, `getSessionLabel` and `formatTotalTime`.

Files:

- `session.dfy` (module `Session`): the session types, the table of configured
  durations (`customTimes`) and the state snapshot (`PomodoroState`).
- `clock.dfy` (module `Clock`): each timer operation as a pure step function from
  the old state to the new one. Each operation also has a function giving the
  listener calls it makes. The lemmas here cover single steps and runs of many ticks.
- `timer.dfy` (module `Timer`): the class `PomodoroTimer`. Its fields are updated
  in place. Each state-changing method is proved against its step function, for both the new
  state and the calls it appends to a ghost log of listener invocations.
- `format.dfy` (module `Format`): the three display helpers. `Number.toString` and
  `padStart` are modelled over naturals. Two readers parse the displays back:
  `ReadClock` and `ReadTotalTime`. They are the round-trip partners of the two
  formatters.

Modelling choices:

- The `intervalId` handle becomes the boolean field `armed`. The class invariant
  `Valid()` says a trigger is armed exactly while the clock runs. `Tick` is a
  public method that requires a running clock, since only the armed trigger
  calls it.
- Listeners are opaque callbacks identified by a `ListenerId`. Notifying
  appends one `Notice` per registration, in registration order, to the ghost
  field `log`. A tick notice carries the state snapshot of that moment.
- Durations and `minutes` are unbounded integers. For integers, Dafny's `/` by
  60 equals `Math.floor(x / 60)`, so `getCustomTime` is exact even for negative
  values.
- The configured durations are not required to be positive, because
  `setCustomTime` does not validate them. A zero duration leaves the countdown
  at -1 inside `tick` for a moment. Completion then reloads it from the other
  session's duration, so completion happens at most once per tick. No
  completion is handled recursively.
- `formatTime` yields five characters `MM:SS` for every value below 6000;
  `FormatTimeFixedWidth` states this. From 100 minutes upwards it prints as
  many minute digits as needed, and `FormatTimeRoundTrip` covers those values
  too.
- The countdown stays non-negative between operations only while every
  configured duration is non-negative; `InDisplayRangeInvariant` states this.
  Inside a completing tick, the inner `pause` notifies the tick listeners with
  the decremented countdown before the next session is loaded: 0 normally,
  and -1 when the finished session's duration is 0
  (`CompletionShowsElapsedCountdown`).

## Model

| member | source | states |
|---|---|---|
| `Session.Other` | src/pomodoro.ts:102-107 | the session after a completion always differs from the finished one |
| `Session.Durations.Set` | src/pomodoro.ts:70 | storing a duration for one session type leaves the other type's duration unchanged |
| `Clock.Initial` | src/pomodoro.ts:24-33 | the state the constructor builds; its range and the first pomodoro from it are stated by `InDisplayRangeInvariant` and `FirstPomodoro` |
| `Clock.Started` | src/pomodoro.ts:35-43 | `start` is idempotent: whether or not the clock was running, it ends up running and nothing else changes |
| `Clock.Paused` | src/pomodoro.ts:45-54 | `pause` is idempotent: the clock ends up paused and nothing else changes |
| `Clock.Reset` | src/pomodoro.ts:56-60 | reset ends paused on the same session, with the countdown at its configured duration; the counters and `completedSessionType` are kept |
| `Clock.Switched` | src/pomodoro.ts:62-67 | switching ends paused on the requested session with its configured duration; the counters and `completedSessionType` are kept |
| `Clock.WithCustomTime` | src/pomodoro.ts:69-70 | the chosen session's duration becomes `minutes * 60`; the other session's duration is unchanged |
| `Clock.AfterSetCustomTime` | src/pomodoro.ts:71-75 | the countdown is reloaded exactly when the changed session is current and paused; otherwise it is untouched; no other field changes |
| `Clock.CustomMinutes` | src/pomodoro.ts:77-79 | the result is the floor of the stored seconds divided by 60 |
| `Clock.Completed` | src/pomodoro.ts:96-113 | completion records the finished type and counts a pomodoro only after work. It switches to the other session with that session's duration and restarts running. Work time is unchanged |
| `Clock.Ticked` | src/pomodoro.ts:81-94 | each tick adds one second of work time exactly when the session is work, and the clock stays running. Above one second left, the countdown drops by exactly 1 and nothing else changes. Otherwise the completion transition happens |
| `Clock.PauseThenStartResumes` | src/pomodoro.ts:35-54 | pausing then starting restores the running state with the same countdown and counters |
| `Clock.CustomTimeRoundTrip` | src/pomodoro.ts:69-79 | `getCustomTime` returns the minutes last set, and entering that session loads `minutes * 60` |
| `Clock.Run` | src/pomodoro.ts:81-113 | any number of ticks leaves the clock running |
| `Clock.RunAdditive` | src/pomodoro.ts:81-94 | `a + b` ticks are `a` ticks followed by `b` ticks |
| `Clock.RunWithoutCompletion` | src/pomodoro.ts:81-94 | fewer ticks than the seconds left take exactly that many seconds off. The session is unchanged, and work time grows by the tick count only during work |
| `Clock.SessionRunsToCompletion` | src/pomodoro.ts:81-113 | a session with `T >= 1` seconds left completes on tick `T`. The other session then runs with its configured duration. Work gains one pomodoro and `T` seconds; a break gains neither |
| `Clock.RunCountersMonotone` | src/pomodoro.ts:81-113 | over `n` ticks neither counter decreases, and neither grows by more than `n` |
| `Clock.FirstPomodoro` | src/pomodoro.ts:24-113 | a fresh timer started for 1500 ticks is on a running 300-second break, with one pomodoro, 1500 seconds of work and `completedSessionType` work; along the way every completion listener was called exactly once |
| `Clock.InDisplayRangeInvariant` | src/pomodoro.ts:24-113 | construction establishes durations and countdown within [0, 6000), and every operation keeps them there when `setCustomTime` gets 0 to 99 minutes |
| `Clock.RunStaysInDisplayRange` | src/pomodoro.ts:81-113 | the display range is kept over any number of ticks |
| `Clock.TickCalls` | src/pomodoro.ts:123-125 | the calls of one tick notification; `TickCallsInOrder` states them entry by entry |
| `Clock.CompleteCalls` | src/pomodoro.ts:127-129 | the calls of one completion notification; `CompleteCallsInOrder` states them entry by entry |
| `Clock.StartNotices` | src/pomodoro.ts:35-43 | the calls `start` makes: none when already running, otherwise one tick notification; `Timer.PomodoroTimer.Start` is proved to make them |
| `Clock.PauseNotices` | src/pomodoro.ts:45-54 | the calls `pause` makes: none when already paused, otherwise one tick notification; `Timer.PomodoroTimer.Pause` is proved to make them |
| `Clock.ResetNotices` | src/pomodoro.ts:56-60 | the calls of the inner `pause`, then one tick notification with the reset state |
| `Clock.SwitchNotices` | src/pomodoro.ts:62-67 | the calls of the inner `pause`, then one tick notification with the switched state |
| `Clock.SetCustomTimeNotices` | src/pomodoro.ts:69-75 | one tick notification exactly when the countdown is reloaded, none otherwise |
| `Clock.CompletionNotices` | src/pomodoro.ts:96-113 | the calls of `handleSessionComplete` in order; `CompletionNoticesCount` counts its completion calls |
| `Clock.TickNotices` | src/pomodoro.ts:81-94 | one tick notification with the decremented state, or the completion calls; `TickCompletesOnce` and `CompletionShowsElapsedCountdown` state what they contain |
| `Clock.TickCallsInOrder` | src/pomodoro.ts:123-125 | one tick notification calls each registration once, in registration order, with the same snapshot; a listener registered twice is called twice |
| `Clock.CompleteCallsInOrder` | src/pomodoro.ts:127-129 | one completion notification calls each registration once, in registration order |
| `Clock.NoCompletionOutsideCompletion` | src/pomodoro.ts:35-75 | `start`, `pause`, `reset`, `switchSession` and `setCustomTime` never call completion listeners |
| `Clock.CompletionNoticesCount` | src/pomodoro.ts:96-113 | completion handling calls the completion listeners exactly once each |
| `Clock.TickCompletesOnce` | src/pomodoro.ts:81-113 | a tick calls every completion listener once if the countdown crosses zero, and none otherwise |
| `Clock.RunCompletesOnce` | src/pomodoro.ts:81-113 | over the ticks of one session with `T >= 1` seconds left, fewer than `T` ticks call no completion listener, and `T` ticks call each exactly once |
| `Clock.CompletionShowsElapsedCountdown` | src/pomodoro.ts:81-113 | the first call of a completing tick goes to the first tick listener. It shows the paused, unswitched session with the countdown one below its old value, which is -1 for a zero duration |
| `Timer.PomodoroTimer.constructor` | src/pomodoro.ts:24-33 | a fresh timer is on work with 1500 seconds left, paused, with no trigger armed. Both counters are 0, there is no completed type, the durations are 25 and 5 minutes, and no listeners are registered |
| `Timer.PomodoroTimer.Start` | src/pomodoro.ts:35-43 | the new state is `Started` of the old one; a trigger is armed; listeners are notified only if the clock was paused |
| `Timer.PomodoroTimer.Pause` | src/pomodoro.ts:45-54 | the new state is `Paused` of the old one; the trigger is disarmed; listeners are notified only if the clock was running |
| `Timer.PomodoroTimer.Reset` | src/pomodoro.ts:56-60 | the new state is `Reset` of the old one, with the notifications of the inner `pause` followed by one more |
| `Timer.PomodoroTimer.SwitchSession` | src/pomodoro.ts:62-67 | the new state is `Switched` of the old one, with the notifications of the inner `pause` followed by one more |
| `Timer.PomodoroTimer.SetCustomTime` | src/pomodoro.ts:69-75 | the durations become `WithCustomTime` and the state becomes `AfterSetCustomTime`; listeners are notified only when the countdown was reloaded |
| `Timer.PomodoroTimer.GetCustomTime` | src/pomodoro.ts:77-79 | returns the whole minutes of the stored duration, rounded down |
| `Timer.PomodoroTimer.Tick` | src/pomodoro.ts:81-94 | the new state is `Ticked` of the old one. The clock is still running, and work time grows by one exactly during work. The log grows by one tick notification, or by the completion sequence |
| `Timer.PomodoroTimer.HandleSessionComplete` | src/pomodoro.ts:96-113 | the new state is `Completed` of the old one. The log grows by the calls of the inner `pause` and `switchSession`, then the completion listeners, then the calls of the restarting `start` |
| `Timer.PomodoroTimer.OnTick` | src/pomodoro.ts:115-117 | the listener is appended to the tick registrations |
| `Timer.PomodoroTimer.OnComplete` | src/pomodoro.ts:119-121 | the listener is appended to the completion registrations |
| `Timer.PomodoroTimer.NotifyListeners` | src/pomodoro.ts:123-125 | the log grows by one call per tick registration, in order, with the current state |
| `Timer.PomodoroTimer.NotifyCompleteListeners` | src/pomodoro.ts:127-129 | the log grows by one call per completion registration, in order |
| `Timer.PomodoroTimer.GetState` | src/pomodoro.ts:131-133 | returns a value equal to the current state; being a value, it is unaffected by later changes |
| `Format.PadStart` | src/pomodoro.ts:139 | `padStart`; below 100, `PaddedTwoDigits` fixes its result on a number's digits, and for every natural `PaddedValue` states that padding keeps the value shown |
| `Format.NatToString` | src/pomodoro.ts:139 | `toString` of a natural is a non-empty string of digits with no leading zero except for 0; it has one digit exactly below 10 and at most two exactly below 100 |
| `Format.DecimalRoundTrip` | src/pomodoro.ts:139 | the digits of `toString` denote the number itself |
| `Format.PaddedTwoDigits` | src/pomodoro.ts:139 | `padStart(2, '0')` of a number below 100 is its tens digit then its units digit |
| `Format.PaddedValue` | src/pomodoro.ts:139 | zero-padding to two places never changes the value shown |
| `Format.FormatTime` | src/pomodoro.ts:136-140 | `formatTime`; below 6000 seconds its output is fixed character by character by `FormatTimeFixedWidth`, and for every input `FormatTimeRoundTrip` gives the value shown |
| `Format.FormatTimeFixedWidth` | src/pomodoro.ts:136-140 | below 6000 seconds the display is exactly five characters: two-digit minutes, `:`, then two-digit seconds |
| `Format.FormatTimeRoundTrip` | src/pomodoro.ts:136-140 | every natural number of seconds displays as minutes, `:` and a two-digit seconds field below 60, reading back as that same number |
| `Format.FormatTimeExample` | src/pomodoro.ts:136-140 | 65 seconds display as `01:05` |
| `Format.SessionLabel` | src/pomodoro.ts:142-149 | work is labelled `Focus Time` and break `Break Time`, and each label names only that session |
| `Format.FormatTotalTime` | src/pomodoro.ts:151-159 | `formatTotalTime`; its output is fixed by `FormatTotalTimeRoundTrip` and `FormatTotalTimeHoursForm`, as `TotalTimeDisplayUnique` proves |
| `Format.CanonicalIsNatToString` | src/pomodoro.ts:156-158 | a figure with no leading zero (other than "0" itself) is exactly what `toString` writes for its value, so `toString` is the only such spelling of a number |
| `Format.FormatTotalTimeRoundTrip` | src/pomodoro.ts:151-159 | the total-time display, with or without an hours part, reads back as exactly the whole minutes `seconds / 60`; leftover seconds are dropped. The reader accepts only figures without leading zeros and a minutes field below 60 after the hours |
| `Format.FormatTotalTimeHoursForm` | src/pomodoro.ts:151-159 | the display contains the hours part exactly when at least 3600 seconds are shown |
| `Format.TotalTimeDisplayUnique` | src/pomodoro.ts:151-159 | any string that reads back as `seconds / 60` and carries an `h` exactly from 3600 seconds upwards is the display of `seconds`, so the two properties above determine `formatTotalTime` completely |
| `Format.FormatTotalTimeHoursExample` | src/pomodoro.ts:151-159 | 5400 seconds display as `1hours 30 mins` |
| `Format.FormatTotalTimeMinutesExample` | src/pomodoro.ts:151-159 | 120 seconds display as `2 mins` |

## Left out

- `src/main.ts` is not part of this model. It holds the DOM queries, `updateUI`, the button and tab handlers, the page title, audio playback and the 1–60 and 1–30 minute input checks. All of these are browser I/O.
- Real timing: `window.setInterval` and `clearInterval` are reduced to the `armed` flag. `Tick` is a method the environment calls.
- Listener behaviour: the callbacks are foreign code. The model records which listener is called, in what order and with what snapshot. It does not model what a callback does: re-entrant calls into the timer, or an exception that propagates out of `tick`, `start` and the other operations.
- Timer.PomodoroTimer.NotifyListeners: the source passes its live state object to tick listeners, so a listener could mutate it; the model passes an immutable snapshot.
- Timer.PomodoroTimer.Tick: requires a running clock, because the only caller in the source is the armed interval. A stray call while paused is not modelled.
- Format.NatToString: models `Number.prototype.toString` for naturals only. Exponent notation from 1e21 upwards and negative values are left out.
- Format.FormatTime and Format.FormatTotalTime take natural numbers of seconds. Negative inputs, where JavaScript's `%` keeps the sign, and non-integer inputs are left out.
- Clock.WithCustomTime and Timer.PomodoroTimer.SetCustomTime take integer minutes. JavaScript's non-integer `minutes` are left out.
