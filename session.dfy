/** Values shared by the Pomodoro session clock and its formatting helpers:
    the two session types, the configured durations and the state snapshot. */
module Session {

  datatype Option<T> = None | Some(value: T)

  /** The two kinds of session the clock alternates between. */
  datatype SessionType = Work | Break

  /** The session that follows `t` when `t` runs to completion. */
  function Other(t: SessionType): (u: SessionType)
    ensures u != t
  {
    if t == Work then Break else Work
  }

  /** The configured length of each session type, in seconds (the
      `customTimes` record).  The values are whatever `setCustomTime` last
      stored: the clock itself does not validate them. */
  datatype Durations = Durations(workSeconds: int, breakSeconds: int)
  {
    /** `customTimes[t]` */
    function Get(t: SessionType): int
    {
      if t == Work then workSeconds else breakSeconds
    }

    /** `customTimes[t] = seconds`: only the entry for `t` changes. */
    function Set(t: SessionType, seconds: int): (d: Durations)
      ensures d.Get(t) == seconds
      ensures d.Get(Other(t)) == Get(Other(t))
    {
      if t == Work then this.(workSeconds := seconds) else this.(breakSeconds := seconds)
    }
  }

  /** 25 minutes of work, 5 minutes of break. */
  const DefaultTimes := Durations(25 * 60, 5 * 60)

  /** The snapshot returned by `getState`. `completedSessionType` is absent
      until the first session completes and then holds the type of the
      session that completed last. */
  datatype PomodoroState = PomodoroState(
    sessionType: SessionType,
    timeRemaining: int,
    isRunning: bool,
    completedPomodoros: nat,
    totalTimeSpent: nat,
    completedSessionType: Option<SessionType>)

  /** Appending four pieces one after another appends their concatenation. */
  lemma AppendAssociative<T>(l: seq<T>, a: seq<T>, b: seq<T>, c: seq<T>, d: seq<T>)
    ensures l + a + b + c + d == l + (a + b + c + d)
  {
  }
}
