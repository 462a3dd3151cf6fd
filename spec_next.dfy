/**
 * spec.go `SpecSchedule.Next`: searches forward from the whole second after `t0`,
 * resolving the fields in the order month, day, hour, minute, second. The first
 * time a field is advanced every finer field is reset to its minimum; a carry into
 * a coarser field restarts the search (the source's `goto WRAP`, here a `wrapped`
 * result and a `continue`); the search gives up once it passes the year five
 * years after its start.
 *
 * `Next` is proved to return `Earliest(s, t0)`: the earliest whole second after
 * `t0` that satisfies every mask, provided it lies at most five years on, else
 * `None` (Go's zero time).
 */
module SpecNext {
  import opened Civil
  import opened Wrappers
  import opened Spec
  import opened SpecSearch

  /** spec.go `SpecSchedule.Next`, in the zone of `t0`. */
  method Next(s: SpecSchedule, t0: DateTime) returns (r: Option<DateTime>)
    requires Valid(t0)
    ensures r == Earliest(s, t0)
    ensures r.None? ==> NoneWithin(s, t0)
  {
    // Start at the earliest possible time: the coming second.
    var t := AddNanos(t0, Second - t0.nano);
    StartOps(t0);
    ghost var start := t;
    // Whether a field has been advanced yet.
    var added := false;
    // Give up after five years.
    var yearLimit := t.year + 5;

    while true
      invariant Searching(s, start, t, added) && t.year <= yearLimit + 1
      decreases yearLimit + 1 - t.year, 12 - t.month, 31 - t.day, 23 - t.hour, 59 - t.minute, 59 - t.second
    {
      if t.year > yearLimit {
        r := None;
        NoneCase(s, t0, start, t, added);
        return;
      }
      var wrapped;
      t, added, wrapped := Pass(s, start, yearLimit, t, added);
      if wrapped {
        continue;
      }
      r := Some(t);
      SomeCase(s, t0, start, t, added);
      return;
    }
  }

  /**
   * One pass from the `WRAP` label of the source: the five field loops in turn,
   * stopping at the first that carries into a coarser field (`wrapped`).
   */
  method Pass(s: SpecSchedule, ghost start: DateTime, yearLimit: int, t0: DateTime, added0: bool)
    returns (t: DateTime, added: bool, wrapped: bool)
    requires Searching(s, start, t0, added0) && t0.year <= yearLimit
    ensures Searching(s, start, t, added)
    ensures wrapped ==> Before(t0, t) && t.year <= yearLimit + 1
    ensures !wrapped ==> t.year <= yearLimit && PhasesOk(s, 5, t)
  {
    t, added, wrapped := MonthPhase(s, start, yearLimit, t0, added0);
    if wrapped {
      return;
    }
    ghost var m := t;
    t, added, wrapped := DayPhase(s, start, yearLimit, t, added);
    BeforeOrSame(t0, m, t);
    if wrapped {
      return;
    }
    ghost var d := t;
    t, added, wrapped := HourPhase(s, start, yearLimit, t, added);
    BeforeOrSame(t0, d, t);
    if wrapped {
      return;
    }
    ghost var h := t;
    t, added, wrapped := MinutePhase(s, start, yearLimit, t, added);
    BeforeOrSame(t0, h, t);
    if wrapped {
      return;
    }
    ghost var mi := t;
    t, added, wrapped := SecondPhase(s, start, yearLimit, t, added);
    BeforeOrSame(t0, mi, t);
  }

  /** The month loop of `Next`; `wrapped` reports the carry into the next year (`goto WRAP`). */
  method MonthPhase(s: SpecSchedule, ghost start: DateTime, yearLimit: int, t0: DateTime, added0: bool)
    returns (t: DateTime, added: bool, wrapped: bool)
    requires Searching(s, start, t0, added0) && t0.year <= yearLimit && PhasesOk(s, 0, t0)
    ensures Searching(s, start, t, added)
    ensures t == t0 || Before(t0, t)
    ensures wrapped ==> Before(t0, t) && t.year <= yearLimit + 1 && t.month == 1
    ensures !wrapped ==> t.year <= yearLimit && PhasesOk(s, 1, t)
  {
    t, added, wrapped := t0, added0, false;
    while !Has(s.month, t.month)
      invariant Searching(s, start, t, added) && t.year <= yearLimit && PhasesOk(s, 0, t)
      invariant t == t0 || Before(t0, t)
      decreases 12 - t.month
    {
      ghost var prev, wasAdded := t, added;
      if !added {
        added := true;
        t := Date(t.year, t.month, 1, 0, 0, 0, 0);
      }
      t := AddDate(t, 0, 1, 0);
      MonthPass(s, start, yearLimit, t0, prev, wasAdded);
      if t.month == 1 {
        wrapped := true;
        return;
      }
    }
  }

  /**
   * The day loop of `Next`. The daylight-saving correction of the source cannot
   * fire in a fixed-offset zone: after the reset the hour is 0.
   */
  method DayPhase(s: SpecSchedule, ghost start: DateTime, yearLimit: int, t0: DateTime, added0: bool)
    returns (t: DateTime, added: bool, wrapped: bool)
    requires Searching(s, start, t0, added0) && t0.year <= yearLimit && PhasesOk(s, 1, t0)
    ensures Searching(s, start, t, added)
    ensures t == t0 || Before(t0, t)
    ensures wrapped ==> Before(t0, t) && t.year <= yearLimit + 1 && t.day == 1
    ensures !wrapped ==> t.year <= yearLimit && PhasesOk(s, 2, t)
  {
    t, added, wrapped := t0, added0, false;
    while !DayMatches(s, t)
      invariant Searching(s, start, t, added) && t.year <= yearLimit && PhasesOk(s, 1, t)
      invariant t == t0 || Before(t0, t)
      decreases 31 - t.day
    {
      ghost var prev, wasAdded := t, added;
      if !added {
        added := true;
        t := Date(t.year, t.month, t.day, 0, 0, 0, 0);
      }
      t := AddDate(t, 0, 0, 1);
      DayPass(s, start, yearLimit, t0, prev, wasAdded);
      if t.day == 1 {
        wrapped := true;
        return;
      }
    }
  }

  /** The hour loop of `Next`. */
  method HourPhase(s: SpecSchedule, ghost start: DateTime, yearLimit: int, t0: DateTime, added0: bool)
    returns (t: DateTime, added: bool, wrapped: bool)
    requires Searching(s, start, t0, added0) && t0.year <= yearLimit && PhasesOk(s, 2, t0)
    ensures Searching(s, start, t, added)
    ensures t == t0 || Before(t0, t)
    ensures wrapped ==> Before(t0, t) && t.year <= yearLimit + 1 && t.hour == 0
    ensures !wrapped ==> t.year <= yearLimit && PhasesOk(s, 3, t)
  {
    t, added, wrapped := t0, added0, false;
    while !Has(s.hour, t.hour)
      invariant Searching(s, start, t, added) && t.year <= yearLimit && PhasesOk(s, 2, t)
      invariant t == t0 || Before(t0, t)
      decreases 23 - t.hour
    {
      ghost var prev, wasAdded := t, added;
      if !added {
        added := true;
        t := Date(t.year, t.month, t.day, t.hour, 0, 0, 0);
      }
      t := AddNanos(t, Hour);
      HourPass(s, start, yearLimit, t0, prev, wasAdded);
      if t.hour == 0 {
        wrapped := true;
        return;
      }
    }
  }

  /** The minute loop of `Next`. */
  method MinutePhase(s: SpecSchedule, ghost start: DateTime, yearLimit: int, t0: DateTime, added0: bool)
    returns (t: DateTime, added: bool, wrapped: bool)
    requires Searching(s, start, t0, added0) && t0.year <= yearLimit && PhasesOk(s, 3, t0)
    ensures Searching(s, start, t, added)
    ensures t == t0 || Before(t0, t)
    ensures wrapped ==> Before(t0, t) && t.year <= yearLimit + 1 && t.minute == 0
    ensures !wrapped ==> t.year <= yearLimit && PhasesOk(s, 4, t)
  {
    t, added, wrapped := t0, added0, false;
    while !Has(s.minute, t.minute)
      invariant Searching(s, start, t, added) && t.year <= yearLimit && PhasesOk(s, 3, t)
      invariant t == t0 || Before(t0, t)
      decreases 59 - t.minute
    {
      ghost var prev, wasAdded := t, added;
      if !added {
        added := true;
        t := TruncateMinute(t);
      }
      t := AddNanos(t, Minute);
      MinutePass(s, start, yearLimit, t0, prev, wasAdded);
      if t.minute == 0 {
        wrapped := true;
        return;
      }
    }
  }

  /** The second loop of `Next`; on exit without a carry the instant matches. */
  method SecondPhase(s: SpecSchedule, ghost start: DateTime, yearLimit: int, t0: DateTime, added0: bool)
    returns (t: DateTime, added: bool, wrapped: bool)
    requires Searching(s, start, t0, added0) && t0.year <= yearLimit && PhasesOk(s, 4, t0)
    ensures Searching(s, start, t, added)
    ensures t == t0 || Before(t0, t)
    ensures wrapped ==> Before(t0, t) && t.year <= yearLimit + 1 && t.second == 0
    ensures !wrapped ==> t.year <= yearLimit && PhasesOk(s, 5, t)
  {
    t, added, wrapped := t0, added0, false;
    while !Has(s.second, t.second)
      invariant Searching(s, start, t, added) && t.year <= yearLimit && PhasesOk(s, 4, t)
      invariant t == t0 || Before(t0, t)
      decreases 59 - t.second
    {
      ghost var prev, wasAdded := t, added;
      if !added {
        added := true;
        t := TruncateSecond(t);
      }
      t := AddNanos(t, Second);
      SecondPass(s, start, yearLimit, t0, prev, wasAdded);
      if t.second == 0 {
        wrapped := true;
        return;
      }
    }
  }
}
