/** The session clock as a pure state machine: one function per operation of
    `PomodoroTimer`, giving the state after the operation in terms of the state
    before it, and one function per operation giving the listener calls it
    makes.  The class in timer.dfy is proved against these; the lemmas here
    state what the clock promises over one step and over many ticks. */
module Clock {
  import opened Session

  /** The state of a freshly constructed timer. */
  function Initial(): PomodoroState
  {
    PomodoroState(Work, DefaultTimes.Get(Work), false, 0, 0, None)
  }

  // ---------------------------------------------------------------------
  // One step per operation
  // ---------------------------------------------------------------------

  /** `start`: a no-op when already running, otherwise sets the running flag.
      Either way the clock ends up running and nothing else changes. */
  function Started(s: PomodoroState): (r: PomodoroState)
    ensures r == s.(isRunning := true)
  {
    if s.isRunning then s else s.(isRunning := true)
  }

  /** `pause`: a no-op when not running, otherwise clears the running flag.
      Either way the clock ends up paused and nothing else changes. */
  function Paused(s: PomodoroState): (r: PomodoroState)
    ensures r == s.(isRunning := false)
  {
    if !s.isRunning then s else s.(isRunning := false)
  }

  /** `reset`: pause, then restore the configured duration of the current
      session.  The counters and `completedSessionType` are kept. */
  function Reset(s: PomodoroState, times: Durations): (r: PomodoroState)
    ensures !r.isRunning && r.sessionType == s.sessionType
    ensures r.timeRemaining == times.Get(s.sessionType)
    ensures r.completedPomodoros == s.completedPomodoros && r.totalTimeSpent == s.totalTimeSpent
    ensures r.completedSessionType == s.completedSessionType
  {
    Paused(s).(timeRemaining := times.Get(s.sessionType))
  }

  /** `switchSession(t)`: pause, select `t` and load its configured duration.
      The counters and `completedSessionType` are kept. */
  function Switched(s: PomodoroState, times: Durations, t: SessionType): (r: PomodoroState)
    ensures !r.isRunning && r.sessionType == t && r.timeRemaining == times.Get(t)
    ensures r.completedPomodoros == s.completedPomodoros && r.totalTimeSpent == s.totalTimeSpent
    ensures r.completedSessionType == s.completedSessionType
  {
    Paused(s).(sessionType := t, timeRemaining := times.Get(t))
  }

  /** The durations after `setCustomTime(t, minutes)`: only `t` changes. */
  function WithCustomTime(times: Durations, t: SessionType, minutes: int): (d: Durations)
    ensures d.Get(t) == minutes * 60
    ensures d.Get(Other(t)) == times.Get(Other(t))
  {
    times.Set(t, minutes * 60)
  }

  /** The state after `setCustomTime(t, minutes)`: the countdown is reloaded
      only when `t` is the current session and the clock is paused. */
  function AfterSetCustomTime(s: PomodoroState, t: SessionType, minutes: int): (r: PomodoroState)
    ensures s.sessionType == t && !s.isRunning ==> r.timeRemaining == minutes * 60
    ensures !(s.sessionType == t && !s.isRunning) ==> r.timeRemaining == s.timeRemaining
    ensures r == s.(timeRemaining := r.timeRemaining)
  {
    if s.sessionType == t && !s.isRunning then s.(timeRemaining := minutes * 60) else s
  }

  /** `getCustomTime(t)`: the configured duration in whole minutes, rounded
      down (as `Math.floor(seconds / 60)`). */
  function CustomMinutes(times: Durations, t: SessionType): (m: int)
    ensures m * 60 <= times.Get(t) < m * 60 + 60
  {
    times.Get(t) / 60
  }

  /** The first half of `tick`: one second off the countdown, and one second
      onto `totalTimeSpent` when the session is a work session. */
  function Decremented(s: PomodoroState): PomodoroState
  {
    s.(timeRemaining := s.timeRemaining - 1,
       totalTimeSpent := if s.sessionType == Work then s.totalTimeSpent + 1 else s.totalTimeSpent)
  }

  /** The part of `handleSessionComplete` before its `switchSession`: the
      finished type is recorded, the clock paused, and a pomodoro counted if
      the finished session was a work session. */
  function Finished(s: PomodoroState): PomodoroState
  {
    var p := Paused(s.(completedSessionType := Some(s.sessionType)));
    if s.sessionType == Work then p.(completedPomodoros := p.completedPomodoros + 1) else p
  }

  /** `handleSessionComplete`: record the finished type, pause, count a
      pomodoro if work finished, switch to the other session and start again. */
  function Completed(s: PomodoroState, times: Durations): (r: PomodoroState)
    ensures r.isRunning
    ensures r.sessionType == Other(s.sessionType)
    ensures r.timeRemaining == times.Get(Other(s.sessionType))
    ensures r.completedSessionType == Some(s.sessionType)
    ensures r.completedPomodoros == s.completedPomodoros + (if s.sessionType == Work then 1 else 0)
    ensures r.totalTimeSpent == s.totalTimeSpent
  {
    Started(Switched(Finished(s), times, Other(s.sessionType)))
  }

  /** `tick`, which only the armed interval invokes, so only while running.
      Work time is accounted per tick; the session completes when the
      decremented countdown is at or below zero. */
  function Ticked(s: PomodoroState, times: Durations): (r: PomodoroState)
    requires s.isRunning
    ensures r.isRunning
    ensures r.totalTimeSpent == s.totalTimeSpent + (if s.sessionType == Work then 1 else 0)
    ensures s.timeRemaining > 1 ==>
      && r.timeRemaining == s.timeRemaining - 1
      && r.sessionType == s.sessionType
      && r.completedPomodoros == s.completedPomodoros
      && r.completedSessionType == s.completedSessionType
    ensures s.timeRemaining <= 1 ==>
      && r.sessionType == Other(s.sessionType)
      && r.timeRemaining == times.Get(Other(s.sessionType))
      && r.completedPomodoros == s.completedPomodoros + (if s.sessionType == Work then 1 else 0)
      && r.completedSessionType == Some(s.sessionType)
  {
    var d := Decremented(s);
    if d.timeRemaining <= 0 then Completed(d, times) else d
  }

  // ---------------------------------------------------------------------
  // Properties of single steps
  // ---------------------------------------------------------------------

  /** Pausing and then starting resumes the same countdown with the same
      counters. */
  lemma PauseThenStartResumes(s: PomodoroState)
    requires s.isRunning
    ensures Started(Paused(s)) == s
  {
  }

  /** A duration set with `setCustomTime` is read back by `getCustomTime`,
      and it is the one loaded the next time that session is entered. */
  lemma CustomTimeRoundTrip(s: PomodoroState, times: Durations, t: SessionType, minutes: int)
    ensures CustomMinutes(WithCustomTime(times, t, minutes), t) == minutes
    ensures Switched(AfterSetCustomTime(s, t, minutes), WithCustomTime(times, t, minutes), t).timeRemaining == minutes * 60
  {
  }

  // ---------------------------------------------------------------------
  // Many ticks
  // ---------------------------------------------------------------------

  /** The state after `n` consecutive ticks. */
  function Run(s: PomodoroState, times: Durations, n: nat): (r: PomodoroState)
    requires s.isRunning
    ensures r.isRunning
    decreases n
  {
    if n == 0 then s else Run(Ticked(s, times), times, n - 1)
  }

  lemma {:induction false} RunAdditive(s: PomodoroState, times: Durations, a: nat, b: nat)
    requires s.isRunning
    ensures Run(s, times, a + b) == Run(Run(s, times, a), times, b)
    decreases a
  {
    if a > 0 {
      RunAdditive(Ticked(s, times), times, a - 1, b);
    }
  }

  /** Before the countdown reaches zero every tick takes exactly one second
      off it, the session does not change, and the work counter grows by
      exactly the number of ticks when the session is a work session. */
  lemma {:induction false} RunWithoutCompletion(s: PomodoroState, times: Durations, k: nat)
    requires s.isRunning && k < s.timeRemaining
    ensures Run(s, times, k) == s.(timeRemaining := s.timeRemaining - k,
                                   totalTimeSpent := s.totalTimeSpent + (if s.sessionType == Work then k else 0))
    decreases k
  {
    if k > 0 {
      RunWithoutCompletion(Ticked(s, times), times, k - 1);
    }
  }

  /** A session started with `T >= 1` seconds on the clock completes on the
      `T`-th tick: the other session is loaded with its configured duration,
      the clock keeps running, a pomodoro is counted only for a work session
      and only work seconds are added to `totalTimeSpent`. */
  lemma SessionRunsToCompletion(s: PomodoroState, times: Durations)
    requires s.isRunning && s.timeRemaining >= 1
    ensures var r := Run(s, times, s.timeRemaining);
      && r.isRunning
      && r.sessionType == Other(s.sessionType)
      && r.timeRemaining == times.Get(Other(s.sessionType))
      && r.completedSessionType == Some(s.sessionType)
      && r.completedPomodoros == s.completedPomodoros + (if s.sessionType == Work then 1 else 0)
      && r.totalTimeSpent == s.totalTimeSpent + (if s.sessionType == Work then s.timeRemaining else 0)
  {
    var t := s.timeRemaining;
    RunAdditive(s, times, t - 1, 1);
    RunWithoutCompletion(s, times, t - 1);
  }

  /** Over any number of ticks the two counters never decrease, and each tick
      adds at most one to either. */
  lemma {:induction false} RunCountersMonotone(s: PomodoroState, times: Durations, n: nat)
    requires s.isRunning
    ensures var r := Run(s, times, n);
      && s.totalTimeSpent <= r.totalTimeSpent <= s.totalTimeSpent + n
      && s.completedPomodoros <= r.completedPomodoros <= s.completedPomodoros + n
    decreases n
  {
    if n > 0 {
      RunCountersMonotone(Ticked(s, times), times, n - 1);
    }
  }


  // ---------------------------------------------------------------------
  // Displayable range
  // ---------------------------------------------------------------------

  /** Every duration and the countdown lie in [0, 6000) seconds, the range in
      which `formatTime` yields a five-character "MM:SS". */
  predicate InDisplayRange(s: PomodoroState, times: Durations)
  {
    && 0 <= times.Get(Work) < 6000
    && 0 <= times.Get(Break) < 6000
    && 0 <= s.timeRemaining < 6000
  }

  /** The range holds between operations: it is established by construction
      and kept by every operation, provided `setCustomTime` is given between 0
      and 99 minutes (the presentation layer only passes 1 to 60 and 1 to 30).
      Inside a completing tick the countdown is one below the old value for a
      moment, and listeners see that (`CompletionShowsElapsedCountdown`). */
  lemma InDisplayRangeInvariant(s: PomodoroState, times: Durations, t: SessionType, minutes: int)
    ensures InDisplayRange(Initial(), DefaultTimes)
    ensures InDisplayRange(s, times) ==>
      && InDisplayRange(Started(s), times)
      && InDisplayRange(Paused(s), times)
      && InDisplayRange(Reset(s, times), times)
      && InDisplayRange(Switched(s, times, t), times)
      && (s.isRunning ==> InDisplayRange(Ticked(s, times), times))
    ensures InDisplayRange(s, times) && 0 <= minutes < 100 ==>
      InDisplayRange(AfterSetCustomTime(s, t, minutes), WithCustomTime(times, t, minutes))
  {
  }

  lemma {:induction false} RunStaysInDisplayRange(s: PomodoroState, times: Durations, n: nat)
    requires s.isRunning && InDisplayRange(s, times)
    ensures InDisplayRange(Run(s, times, n), times)
    decreases n
  {
    if n > 0 {
      var d := Ticked(s, times);
      assert InDisplayRange(d, times);
      RunStaysInDisplayRange(d, times, n - 1);
    }
  }

  // ---------------------------------------------------------------------
  // Listener notification
  // ---------------------------------------------------------------------

  /** Listeners are opaque callbacks; a registration is identified by an id. */
  type ListenerId = nat

  /** One invocation of a listener: a tick listener receives the state at the
      moment of notification, a completion listener receives nothing. */
  datatype Notice = TickCall(listener: ListenerId, snapshot: PomodoroState) | CompleteCall(listener: ListenerId)

  /** `notifyListeners`: every tick listener, in registration order, with the
      same snapshot (see `TickCallsInOrder`). */
  function TickCalls(listeners: seq<ListenerId>, s: PomodoroState): seq<Notice>
  {
    if listeners == [] then []
    else TickCalls(listeners[..|listeners| - 1], s) + [TickCall(listeners[|listeners| - 1], s)]
  }

  /** `notifyCompleteListeners`: every completion listener, in registration
      order (see `CompleteCallsInOrder`). */
  function CompleteCalls(listeners: seq<ListenerId>): seq<Notice>
  {
    if listeners == [] then []
    else CompleteCalls(listeners[..|listeners| - 1]) + [CompleteCall(listeners[|listeners| - 1])]
  }

  /** Notification calls each registered tick listener once per
      registration, in registration order: a listener registered twice is
      called twice. */
  lemma {:induction false} TickCallsInOrder(listeners: seq<ListenerId>, s: PomodoroState)
    ensures |TickCalls(listeners, s)| == |listeners|
    ensures forall i :: 0 <= i < |listeners| ==> TickCalls(listeners, s)[i] == TickCall(listeners[i], s)
    decreases |listeners|
  {
    if listeners != [] {
      TickCallsInOrder(listeners[..|listeners| - 1], s);
    }
  }

  lemma {:induction false} CompleteCallsInOrder(listeners: seq<ListenerId>)
    ensures |CompleteCalls(listeners)| == |listeners|
    ensures forall i :: 0 <= i < |listeners| ==> CompleteCalls(listeners)[i] == CompleteCall(listeners[i])
    decreases |listeners|
  {
    if listeners != [] {
      CompleteCallsInOrder(listeners[..|listeners| - 1]);
    }
  }

  function StartNotices(s: PomodoroState, tl: seq<ListenerId>): seq<Notice>
  {
    if s.isRunning then [] else TickCalls(tl, Started(s))
  }

  function PauseNotices(s: PomodoroState, tl: seq<ListenerId>): seq<Notice>
  {
    if !s.isRunning then [] else TickCalls(tl, Paused(s))
  }

  function ResetNotices(s: PomodoroState, times: Durations, tl: seq<ListenerId>): seq<Notice>
  {
    PauseNotices(s, tl) + TickCalls(tl, Reset(s, times))
  }

  function SwitchNotices(s: PomodoroState, times: Durations, t: SessionType, tl: seq<ListenerId>): seq<Notice>
  {
    PauseNotices(s, tl) + TickCalls(tl, Switched(s, times, t))
  }

  function SetCustomTimeNotices(s: PomodoroState, t: SessionType, minutes: int, tl: seq<ListenerId>): seq<Notice>
  {
    if s.sessionType == t && !s.isRunning then TickCalls(tl, AfterSetCustomTime(s, t, minutes)) else []
  }

  /** The calls made by `handleSessionComplete`, in order: those of its
      `pause`, of its `switchSession`, the completion listeners, then those of
      its `start`. */
  function CompletionNotices(s: PomodoroState, times: Durations, tl: seq<ListenerId>, cl: seq<ListenerId>): seq<Notice>
  {
    var t := Other(s.sessionType);
    PauseNotices(s.(completedSessionType := Some(s.sessionType)), tl)
      + SwitchNotices(Finished(s), times, t, tl)
      + CompleteCalls(cl)
      + StartNotices(Switched(Finished(s), times, t), tl)
  }

  function TickNotices(s: PomodoroState, times: Durations, tl: seq<ListenerId>, cl: seq<ListenerId>): seq<Notice>
  {
    var d := Decremented(s);
    if d.timeRemaining <= 0 then CompletionNotices(d, times, tl, cl) else TickCalls(tl, d)
  }

  /** The number of completion-listener calls in a log. */
  function CompletionCount(log: seq<Notice>): nat
  {
    if log == [] then 0
    else CompletionCount(log[..|log| - 1]) + (if log[|log| - 1].CompleteCall? then 1 else 0)
  }

  lemma {:induction false} CompletionCountAppend(a: seq<Notice>, b: seq<Notice>)
    ensures CompletionCount(a + b) == CompletionCount(a) + CompletionCount(b)
    decreases |b|
  {
    if b == [] {
      assert a + b == a;
    } else {
      assert (a + b)[..|a + b| - 1] == a + b[..|b| - 1];
      CompletionCountAppend(a, b[..|b| - 1]);
    }
  }

  lemma {:induction false} NoCompletionInTickCalls(tl: seq<ListenerId>, s: PomodoroState)
    ensures CompletionCount(TickCalls(tl, s)) == 0
    decreases |tl|
  {
    if tl != [] {
      var calls := TickCalls(tl, s);
      assert calls[..|calls| - 1] == TickCalls(tl[..|tl| - 1], s);
      NoCompletionInTickCalls(tl[..|tl| - 1], s);
    }
  }

  lemma {:induction false} CompleteCallsCount(cl: seq<ListenerId>)
    ensures CompletionCount(CompleteCalls(cl)) == |cl|
    decreases |cl|
  {
    if cl != [] {
      var calls := CompleteCalls(cl);
      assert calls[..|calls| - 1] == CompleteCalls(cl[..|cl| - 1]);
      CompleteCallsCount(cl[..|cl| - 1]);
    }
  }

  /** `start`, `pause`, `reset`, `switchSession` and `setCustomTime` only
      ever call tick listeners. */
  lemma NoCompletionOutsideCompletion(s: PomodoroState, times: Durations, t: SessionType, minutes: int, tl: seq<ListenerId>)
    ensures CompletionCount(StartNotices(s, tl)) == 0
    ensures CompletionCount(PauseNotices(s, tl)) == 0
    ensures CompletionCount(ResetNotices(s, times, tl)) == 0
    ensures CompletionCount(SwitchNotices(s, times, t, tl)) == 0
    ensures CompletionCount(SetCustomTimeNotices(s, t, minutes, tl)) == 0
  {
    NoCompletionInTickCalls(tl, Started(s));
    NoCompletionInTickCalls(tl, Paused(s));
    NoCompletionInTickCalls(tl, Reset(s, times));
    NoCompletionInTickCalls(tl, Switched(s, times, t));
    NoCompletionInTickCalls(tl, AfterSetCustomTime(s, t, minutes));
    CompletionCountAppend(PauseNotices(s, tl), TickCalls(tl, Reset(s, times)));
    CompletionCountAppend(PauseNotices(s, tl), TickCalls(tl, Switched(s, times, t)));
  }

  /** Completion handling calls every completion listener exactly once. */
  lemma CompletionNoticesCount(s: PomodoroState, times: Durations, tl: seq<ListenerId>, cl: seq<ListenerId>)
    ensures CompletionCount(CompletionNotices(s, times, tl, cl)) == |cl|
  {
    var t := Other(s.sessionType);
    var a := PauseNotices(s.(completedSessionType := Some(s.sessionType)), tl);
    var b := SwitchNotices(Finished(s), times, t, tl);
    var c := CompleteCalls(cl);
    var e := StartNotices(Switched(Finished(s), times, t), tl);
    NoCompletionOutsideCompletion(s.(completedSessionType := Some(s.sessionType)), times, t, 0, tl);
    NoCompletionOutsideCompletion(Finished(s), times, t, 0, tl);
    NoCompletionOutsideCompletion(Switched(Finished(s), times, t), times, t, 0, tl);
    CompleteCallsCount(cl);
    CompletionCountAppend(a, b);
    CompletionCountAppend(a + b, c);
    CompletionCountAppend(a + b + c, e);
    assert CompletionNotices(s, times, tl, cl) == a + b + c + e;
  }

  /** A tick calls every completion listener exactly once when the countdown
      crosses zero, and none of them otherwise. */
  lemma TickCompletesOnce(s: PomodoroState, times: Durations, tl: seq<ListenerId>, cl: seq<ListenerId>)
    ensures CompletionCount(TickNotices(s, times, tl, cl)) == if s.timeRemaining <= 1 then |cl| else 0
  {
    var d := Decremented(s);
    if d.timeRemaining <= 0 {
      CompletionNoticesCount(d, times, tl, cl);
    } else {
      NoCompletionInTickCalls(tl, d);
    }
  }

  /** A completing tick first notifies the tick listeners from its inner
      `pause`, with the decremented countdown: 0 normally, and -1 when the
      finished session was configured with a duration of 0. */
  lemma CompletionShowsElapsedCountdown(s: PomodoroState, times: Durations, tl: seq<ListenerId>, cl: seq<ListenerId>)
    requires s.isRunning && s.timeRemaining <= 1 && tl != []
    ensures |TickNotices(s, times, tl, cl)| > 0
    ensures var n := TickNotices(s, times, tl, cl)[0];
      && n.TickCall? && n.listener == tl[0]
      && n.snapshot.timeRemaining == s.timeRemaining - 1
      && n.snapshot.sessionType == s.sessionType
      && !n.snapshot.isRunning
  {
    var d := Decremented(s);
    var p := d.(completedSessionType := Some(d.sessionType));
    TickCallsInOrder(tl, Paused(p));
    assert PauseNotices(p, tl) == TickCalls(tl, Paused(p));
    assert TickNotices(s, times, tl, cl)[0] == PauseNotices(p, tl)[0];
  }

  // ---------------------------------------------------------------------
  // Notifications over many ticks
  // ---------------------------------------------------------------------

  /** Every listener call made by `n` consecutive ticks, in order. */
  function RunNotices(s: PomodoroState, times: Durations, tl: seq<ListenerId>, cl: seq<ListenerId>, n: nat): seq<Notice>
    requires s.isRunning
    decreases n
  {
    if n == 0 then [] else TickNotices(s, times, tl, cl) + RunNotices(Ticked(s, times), times, tl, cl, n - 1)
  }

  /** Over the ticks of one session, the completion listeners are called
      not at all before the countdown crosses zero, and exactly once each on
      the tick that crosses it. */
  lemma {:induction false} RunCompletesOnce(s: PomodoroState, times: Durations, tl: seq<ListenerId>, cl: seq<ListenerId>, k: nat)
    requires s.isRunning && 1 <= s.timeRemaining && k <= s.timeRemaining
    ensures CompletionCount(RunNotices(s, times, tl, cl, k)) == if k == s.timeRemaining then |cl| else 0
    decreases k
  {
    if k > 0 {
      var u := Ticked(s, times);
      TickCompletesOnce(s, times, tl, cl);
      CompletionCountAppend(TickNotices(s, times, tl, cl), RunNotices(u, times, tl, cl, k - 1));
      if s.timeRemaining > 1 {
        RunCompletesOnce(u, times, tl, cl, k - 1);
      }
    }
  }

  /** A fresh timer, started and left alone for 25 minutes, has completed one
      pomodoro and is running the 5 minute break; on the way every completion
      listener was called exactly once. */
  lemma FirstPomodoro(tl: seq<ListenerId>, cl: seq<ListenerId>)
    ensures Started(Initial()).isRunning
    ensures Run(Started(Initial()), DefaultTimes, 1500) == PomodoroState(Break, 300, true, 1, 1500, Some(Work))
    ensures CompletionCount(RunNotices(Started(Initial()), DefaultTimes, tl, cl, 1500)) == |cl|
  {
    SessionRunsToCompletion(Started(Initial()), DefaultTimes);
    RunCompletesOnce(Started(Initial()), DefaultTimes, tl, cl, 1500);
  }
}
