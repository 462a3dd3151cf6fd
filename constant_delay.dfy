/**
 * The fixed-interval schedule of constant_delay.go: "every `Delay`", where the
 * delay is a whole number of seconds and at least one second when built by
 * `Every`, and each activation falls on a whole second.
 */
module ConstantDelay {
  import opened Civil

  datatype ConstantDelaySchedule = ConstantDelaySchedule(delay: Duration)

  /** Go's int64 arithmetic: `x` reduced into the Duration range modulo 2^64. */
  function Wrap64(x: int): (d: Duration)
    ensures MinDuration <= x <= MaxDuration ==> d == x
  {
    (x - MinDuration) % 0x1_0000_0000_0000_0000 + MinDuration
  }

  /**
   * constant_delay.go `Every`: a delay below one second becomes one second, and
   * the sub-second part of the delay is truncated away.
   */
  function Every(duration: Duration): (r: ConstantDelaySchedule)
    ensures r.delay >= Second && r.delay % Second == 0
    ensures duration < Second ==> r.delay == Second
    ensures duration >= Second ==> r.delay <= duration < r.delay + Second
  {
    var d := if duration < Second then Second else duration;
    // `d` is positive, so Go's truncating `%` and Dafny's Euclidean `%` agree.
    ConstantDelaySchedule(d - d % Second)
  }

  /** constant_delay.go `ConstantDelaySchedule.Next`: `t` with its nanoseconds dropped, plus the delay. */
  function Next(schedule: ConstantDelaySchedule, t: DateTime): (r: DateTime)
    requires Valid(t)
    ensures Valid(r)
  {
    AddNanos(t, Wrap64(schedule.delay - t.nano))
  }

  /** A delay that is already a whole number of seconds, at least one, is kept as it is. */
  lemma EveryKeepsWholeSeconds(duration: Duration)
    requires duration >= Second && duration % Second == 0
    ensures Every(duration).delay == duration
  {
  }

  /** `@every 1h30m10s` runs every 5410 seconds. */
  lemma EveryHourHalfTen()
    ensures Every(Hour + 30 * Minute + 10 * Second).delay == 5410 * Second
  {
    EveryKeepsWholeSeconds(Hour + 30 * Minute + 10 * Second);
  }

  /** Building a schedule from the delay of a built schedule changes nothing. */
  lemma EveryIdempotent(duration: Duration)
    ensures Every(Every(duration).delay) == Every(duration)
  {
    EveryKeepsWholeSeconds(Every(duration).delay);
  }

  /** The position of an instant, modulo one second, is its nanosecond field. */
  lemma OrdNanos(t: DateTime)
    requires Valid(t)
    ensures Ord(t) % Second == t.nano
  {
    var whole := DaysFromCivil(t.year, t.month, t.day) * 86_400 + t.hour * 3_600 + t.minute * 60 + t.second;
    assert Ord(t) == whole * 1_000_000_000 + t.nano;
    ModSecond(Ord(t), whole, t.nano);
  }

  lemma ModSecond(x: int, q: int, r: int)
    requires x == q * 1_000_000_000 + r && 0 <= r < 1_000_000_000
    ensures x % Second == r
  {
  }

  /** For a delay of at least one second the step never wraps: `Next` is the truncated time plus the delay. */
  lemma NextIsTruncatedPlusDelay(schedule: ConstantDelaySchedule, t: DateTime)
    requires Valid(t) && schedule.delay >= Second
    ensures Ord(Next(schedule, t)) == Ord(t) - t.nano + schedule.delay
    ensures Next(schedule, t) == AddNanos(TruncateSecond(t), schedule.delay)
  {
    var r := Next(schedule, t);
    OrdMonotone(r, AddNanos(TruncateSecond(t), schedule.delay));
  }

  /** With a delay of at least one second, every activation lies strictly after `t`. */
  lemma NextAfter(schedule: ConstantDelaySchedule, t: DateTime)
    requires Valid(t)
    ensures schedule.delay >= Second ==> Before(t, Next(schedule, t))
  {
    if schedule.delay >= Second {
      NextIsTruncatedPlusDelay(schedule, t);
      OrdMonotone(t, Next(schedule, t));
    }
  }

  /** A schedule built by `Every` activates on whole seconds, strictly after `t`. */
  lemma NextOnWholeSecondAfter(duration: Duration, t: DateTime)
    requires Valid(t)
    ensures var r := Next(Every(duration), t);
            r.nano == 0 && Before(t, r)
  {
    var schedule := Every(duration);
    var r := Next(schedule, t);
    NextIsTruncatedPlusDelay(schedule, t);
    OrdNanos(t);
    OrdNanos(r);
    WholeSteps(Ord(t), t.nano, schedule.delay, Ord(r));
    OrdMonotone(t, r);
  }

  /** Dropping the remainder and adding a whole number of seconds gives a whole number of seconds. */
  lemma WholeSteps(a: int, n: int, delay: int, b: int)
    requires a % 1_000_000_000 == n && delay % 1_000_000_000 == 0
    requires b == a - n + delay
    ensures b % 1_000_000_000 == 0
  {
    ModSecond(b, a / 1_000_000_000 + delay / 1_000_000_000, 0);
  }

  /**
   * On a whole second, one step is exactly the delay: how long the job ran plays
   * no part, since `Next` sees only the instant it is given.
   */
  lemma NextElapsed(duration: Duration, t: DateTime)
    requires Valid(t) && t.nano == 0
    ensures Sub(Next(Every(duration), t), t) == Every(duration).delay
  {
    SubAddNanos(t, Every(duration).delay);
  }
}
