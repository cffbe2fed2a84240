/** The `PomodoroTimer` class: the session clock as an object whose methods
    update its fields in place.  Every state-changing method is proved against the matching
    step function of module Clock, both for the new state and for the
    listener calls it makes. */
module Timer {
  import opened Session
  import opened Clock

  class PomodoroTimer {
    /** The live state; `GetState` hands out a copy. */
    var state: PomodoroState
    /** Whether a periodic trigger that calls `Tick` is registered (the
        `intervalId` handle is non-null). */
    var armed: bool
    var customTimes: Durations
    /** Registered listeners, in registration order. */
    var tickListeners: seq<ListenerId>
    var completeListeners: seq<ListenerId>
    /** Every listener invocation so far, in order. */
    ghost var log: seq<Notice>

    /** A trigger is armed exactly while the clock runs, so there is never
        more than one. */
    ghost predicate Valid()
      reads this
    {
      armed == state.isRunning
    }

    constructor ()
      ensures Valid()
      ensures state == Initial()
      ensures state.sessionType == Work && state.timeRemaining == 1500 && !state.isRunning
      ensures state.completedPomodoros == 0 && state.totalTimeSpent == 0 && state.completedSessionType == None
      ensures customTimes == DefaultTimes
      ensures tickListeners == [] && completeListeners == [] && log == []
    {
      customTimes := DefaultTimes;
      state := PomodoroState(Work, DefaultTimes.Get(Work), false, 0, 0, None);
      armed := false;
      tickListeners := [];
      completeListeners := [];
      log := [];
    }

    method Start()
      requires Valid()
      modifies this`state, this`armed, this`log
      ensures Valid()
      ensures state == Started(old(state))
      ensures log == old(log) + StartNotices(old(state), tickListeners)
    {
      if state.isRunning {
        return;
      }
      state := state.(isRunning := true);
      armed := true;
      NotifyListeners();
    }

    method Pause()
      requires Valid()
      modifies this`state, this`armed, this`log
      ensures Valid()
      ensures state == Paused(old(state))
      ensures log == old(log) + PauseNotices(old(state), tickListeners)
    {
      if !state.isRunning {
        return;
      }
      state := state.(isRunning := false);
      if armed {
        armed := false;
      }
      NotifyListeners();
    }

    method Reset()
      requires Valid()
      modifies this`state, this`armed, this`log
      ensures Valid()
      ensures state == Clock.Reset(old(state), customTimes)
      ensures log == old(log) + ResetNotices(old(state), customTimes, tickListeners)
    {
      Pause();
      state := state.(timeRemaining := customTimes.Get(state.sessionType));
      NotifyListeners();
    }

    method SwitchSession(sessionType: SessionType)
      requires Valid()
      modifies this`state, this`armed, this`log
      ensures Valid()
      ensures state == Switched(old(state), customTimes, sessionType)
      ensures log == old(log) + SwitchNotices(old(state), customTimes, sessionType, tickListeners)
    {
      Pause();
      state := state.(sessionType := sessionType);
      state := state.(timeRemaining := customTimes.Get(sessionType));
      NotifyListeners();
    }

    method SetCustomTime(sessionType: SessionType, minutes: int)
      requires Valid()
      modifies this`customTimes, this`state, this`log
      ensures Valid()
      ensures customTimes == WithCustomTime(old(customTimes), sessionType, minutes)
      ensures state == AfterSetCustomTime(old(state), sessionType, minutes)
      ensures log == old(log) + SetCustomTimeNotices(old(state), sessionType, minutes, tickListeners)
    {
      customTimes := customTimes.Set(sessionType, minutes * 60);
      if state.sessionType == sessionType && !state.isRunning {
        state := state.(timeRemaining := customTimes.Get(sessionType));
        NotifyListeners();
      }
    }

    method GetCustomTime(sessionType: SessionType) returns (minutes: int)
      ensures minutes * 60 <= customTimes.Get(sessionType) < minutes * 60 + 60
      ensures minutes == CustomMinutes(customTimes, sessionType)
    {
      minutes := customTimes.Get(sessionType) / 60;
    }

    /** Invoked by the armed periodic trigger, hence only while running. */
    method Tick()
      requires Valid() && state.isRunning
      modifies this`state, this`armed, this`log
      ensures Valid() && state.isRunning
      ensures state == Ticked(old(state), customTimes)
      ensures log == old(log) + TickNotices(old(state), customTimes, tickListeners, completeListeners)
    {
      state := state.(timeRemaining := state.timeRemaining - 1);

      if state.sessionType == Work {
        state := state.(totalTimeSpent := state.totalTimeSpent + 1);
      }

      if state.timeRemaining <= 0 {
        HandleSessionComplete();
      } else {
        NotifyListeners();
      }
    }

    method HandleSessionComplete()
      requires Valid()
      modifies this`state, this`armed, this`log
      ensures Valid() && state.isRunning
      ensures state == Completed(old(state), customTimes)
      ensures log == old(log) + CompletionNotices(old(state), customTimes, tickListeners, completeListeners)
    {
      ghost var s0, log0 := state, log;
      ghost var next := Other(s0.sessionType);
      var completedSessionType := state.sessionType;
      state := state.(completedSessionType := Some(completedSessionType));
      ghost var recorded := state;

      Pause();
      ghost var log1 := log;
      assert log1 == log0 + PauseNotices(recorded, tickListeners);

      if state.sessionType == Work {
        state := state.(completedPomodoros := state.completedPomodoros + 1);
        assert state == Finished(s0);
        SwitchSession(Break);
      } else {
        assert state == Finished(s0);
        SwitchSession(Work);
      }
      ghost var log2 := log;
      assert log2 == log1 + SwitchNotices(Finished(s0), customTimes, next, tickListeners);
      ghost var switched := state;

      NotifyCompleteListeners();
      ghost var log3 := log;
      assert log3 == log2 + CompleteCalls(completeListeners);

      Start();
      assert log == log3 + StartNotices(switched, tickListeners);
      assert switched == Switched(Finished(s0), customTimes, next);
      assert recorded == s0.(completedSessionType := Some(s0.sessionType));
      AppendAssociative(log0, PauseNotices(recorded, tickListeners),
        SwitchNotices(Finished(s0), customTimes, next, tickListeners),
        CompleteCalls(completeListeners), StartNotices(switched, tickListeners));
    }

    method OnTick(listener: ListenerId)
      modifies this`tickListeners
      ensures tickListeners == old(tickListeners) + [listener]
    {
      tickListeners := tickListeners + [listener];
    }

    method OnComplete(listener: ListenerId)
      modifies this`completeListeners
      ensures completeListeners == old(completeListeners) + [listener]
    {
      completeListeners := completeListeners + [listener];
    }

    /** Calls every tick listener, in registration order, with the current state. */
    method NotifyListeners()
      modifies this`log
      ensures log == old(log) + TickCalls(tickListeners, state)
    {
      var i := 0;
      while i < |tickListeners|
        invariant 0 <= i <= |tickListeners|
        invariant log == old(log) + TickCalls(tickListeners[..i], state)
      {
        assert tickListeners[..i + 1][..i] == tickListeners[..i];
        log := log + [TickCall(tickListeners[i], state)];
        i := i + 1;
      }
      assert tickListeners[..i] == tickListeners;
    }

    /** Calls every completion listener, in registration order. */
    method NotifyCompleteListeners()
      modifies this`log
      ensures log == old(log) + CompleteCalls(completeListeners)
    {
      var i := 0;
      while i < |completeListeners|
        invariant 0 <= i <= |completeListeners|
        invariant log == old(log) + CompleteCalls(completeListeners[..i])
      {
        assert completeListeners[..i + 1][..i] == completeListeners[..i];
        log := log + [CompleteCall(completeListeners[i])];
        i := i + 1;
      }
      assert completeListeners[..i] == completeListeners;
    }

    /** A copy of the state: later changes to the timer do not affect it. */
    method GetState() returns (s: PomodoroState)
      ensures s == state
    {
      s := state;
    }
  }
}
