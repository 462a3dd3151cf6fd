/**
 * The specification of `SpecSchedule.Next` and the facts its search rests on.
 *
 * The search considers the fields in phases: 0 is the month, 1 the day, 2 the
 * hour, 3 the minute and 4 the second. `NextStart(q, t)` is the start of the next
 * value of phase `q`'s field after `t`; every step of the search lands there, and
 * no instant it skips satisfies the schedule.
 */
module SpecSearch {
  import opened Civil
  import opened Wrappers
  import opened Spec

  // ---------------------------------------------------------------------------
  // The search's vocabulary. Phase 0 is the month, 1 the day, 2 the hour,
  // 3 the minute and 4 the second.

  /** The test made by the loop of phase `q`. */
  predicate PhaseOk(s: SpecSchedule, q: nat, t: DateTime)
    requires q <= 4 && 1 <= t.month <= 12
  {
    if q == 0 then Has(s.month, t.month)
    else if q == 1 then DayMatches(s, t)
    else if q == 2 then Has(s.hour, t.hour)
    else if q == 3 then Has(s.minute, t.minute)
    else Has(s.second, t.second)
  }

  /** The first phase whose test fails, or 5 when the instant matches. */
  function FirstMismatch(s: SpecSchedule, t: DateTime): (q: nat)
    requires 1 <= t.month <= 12
    ensures q <= 5
    ensures forall p: nat :: p < q ==> PhaseOk(s, p, t)
    ensures q < 5 ==> !PhaseOk(s, q, t)
    ensures q == 5 <==> Matches(s, t)
  {
    if !PhaseOk(s, 0, t) then 0
    else if !PhaseOk(s, 1, t) then 1
    else if !PhaseOk(s, 2, t) then 2
    else if !PhaseOk(s, 3, t) then 3
    else if !PhaseOk(s, 4, t) then 4
    else 5
  }

  /** The tests of all phases before `q` pass. */
  predicate PhasesOk(s: SpecSchedule, q: nat, t: DateTime)
    requires 1 <= t.month <= 12
  {
    && (q > 0 ==> Has(s.month, t.month))
    && (q > 1 ==> DayMatches(s, t))
    && (q > 2 ==> Has(s.hour, t.hour))
    && (q > 3 ==> Has(s.minute, t.minute))
    && (q > 4 ==> Has(s.second, t.second))
  }

  /** Every field finer than phase `q`'s field is at its minimum. */
  predicate Aligned(t: DateTime, q: nat) {
    && t.nano == 0
    && (q <= 3 ==> t.second == 0)
    && (q <= 2 ==> t.minute == 0)
    && (q <= 1 ==> t.hour == 0)
    && (q == 0 ==> t.day == 1)
  }

  /** `a` and `b` have the same year and the same fields down to phase `q`'s field. */
  predicate Agree(q: nat, a: DateTime, b: DateTime) {
    && a.year == b.year && a.month == b.month
    && (q >= 1 ==> a.day == b.day)
    && (q >= 2 ==> a.hour == b.hour)
    && (q >= 3 ==> a.minute == b.minute)
    && (q >= 4 ==> a.second == b.second)
  }

  /** The start of the next month, day, hour, minute or second after `t` (phase 0 to 4). */
  function NextStart(q: nat, t: DateTime): (n: DateTime)
    requires q <= 4 && Valid(t)
    ensures Valid(n) && Aligned(n, q) && Before(t, n)
  {
    if q == 0 then
      if t.month == 12 then DateTime(t.year + 1, 1, 1, 0, 0, 0, 0)
      else DateTime(t.year, t.month + 1, 1, 0, 0, 0, 0)
    else if q == 1 then
      if t.day == DaysIn(t.year, t.month) then NextStart(0, t)
      else DateTime(t.year, t.month, t.day + 1, 0, 0, 0, 0)
    else if q == 2 then
      if t.hour == 23 then NextStart(1, t)
      else DateTime(t.year, t.month, t.day, t.hour + 1, 0, 0, 0)
    else if q == 3 then
      if t.minute == 59 then NextStart(2, t)
      else DateTime(t.year, t.month, t.day, t.hour, t.minute + 1, 0, 0)
    else
      if t.second == 59 then NextStart(3, t)
      else DateTime(t.year, t.month, t.day, t.hour, t.minute, t.second + 1, 0)
  }

  /** The value of phase `q`'s field. */
  function Field(q: nat, t: DateTime): int {
    if q == 0 then t.month else if q == 1 then t.day else if q == 2 then t.hour
    else if q == 3 then t.minute else t.second
  }

  /** The value phase `q`'s field takes after a carry out of it. */
  function FieldMin(q: nat): int {
    if q <= 1 then 1 else 0
  }

  // ---------------------------------------------------------------------------
  // The specification of `Next`

  /** The first whole second after `t`, where the search starts. */
  function SearchStart(t: DateTime): (u: DateTime)
    requires Valid(t)
    ensures Valid(u) && u.nano == 0 && Before(t, u)
  {
    NextStart(4, t)
  }

  /** The last year the search examines. */
  function YearLimit(t: DateTime): int
    requires Valid(t)
  {
    SearchStart(t).year + 5
  }

  /** A whole second after `t` that satisfies the schedule. */
  ghost predicate Candidate(s: SpecSchedule, t: DateTime, u: DateTime) {
    Valid(u) && u.nano == 0 && Before(t, u) && Matches(s, u)
  }

  /** `u` is the earliest candidate after `t`, and it lies within the search horizon. */
  ghost predicate IsEarliest(s: SpecSchedule, t: DateTime, u: DateTime)
    requires Valid(t)
  {
    && Candidate(s, t, u)
    && u.year <= YearLimit(t)
    && forall v :: Candidate(s, t, v) && Before(v, u) ==> false
  }

  /** The instant `Next` must return: the earliest candidate within five years, if any. */
  ghost function Earliest(s: SpecSchedule, t: DateTime): (r: Option<DateTime>)
    requires Valid(t)
    ensures r.Some? <==> exists u :: IsEarliest(s, t, u)
    ensures r.Some? ==> IsEarliest(s, t, r.value)
  {
    if exists u :: IsEarliest(s, t, u) then
      var u :| IsEarliest(s, t, u); Some(u)
    else
      None
  }

  /** No candidate lies within the search horizon. */
  ghost predicate NoneWithin(s: SpecSchedule, t: DateTime)
    requires Valid(t)
  {
    forall u :: Candidate(s, t, u) ==> u.year > YearLimit(t)
  }

  /** What `Earliest` delivers: a whole second after `t` that matches and that no candidate precedes. */
  lemma EarliestMeans(s: SpecSchedule, t: DateTime)
    requires Valid(t)
    ensures var r := Earliest(s, t);
            r.Some? ==> && Valid(r.value) && r.value.nano == 0 && Before(t, r.value)
                        && Matches(s, r.value) && r.value.year <= YearLimit(t)
                        && forall u :: Candidate(s, t, u) ==> !Before(u, r.value)
  {
  }

  /** There is at most one earliest candidate. */
  lemma EarliestUnique(s: SpecSchedule, t: DateTime, u: DateTime, v: DateTime)
    requires Valid(t) && IsEarliest(s, t, u) && IsEarliest(s, t, v)
    ensures u == v
  {
    BeforeTotal(u, v);
  }

  /** No whole second in `[start, t)` satisfies the schedule. */
  ghost predicate NoMatchBetween(s: SpecSchedule, start: DateTime, t: DateTime) {
    forall u :: Valid(u) && u.nano == 0 && !Before(u, start) && Before(u, t) ==> !Matches(s, u)
  }


  /** What holds of the search position `t` throughout the search. */
  ghost predicate Searching(s: SpecSchedule, start: DateTime, t: DateTime, added: bool) {
    && Valid(t) && t.nano == 0 && !Before(t, start)
    && NoMatchBetween(s, start, t)
    && (added ==> Aligned(t, FirstMismatch(s, t)))
  }


  // ---------------------------------------------------------------------------
  // Lemmas behind `Next`

  /** `t` with every field finer than phase `q`'s field (1 to 4) cleared. */
  function Floor(q: nat, t: DateTime): DateTime {
    if q <= 1 then DateTime(t.year, t.month, t.day, 0, 0, 0, 0)
    else if q == 2 then DateTime(t.year, t.month, t.day, t.hour, 0, 0, 0)
    else if q == 3 then DateTime(t.year, t.month, t.day, t.hour, t.minute, 0, 0)
    else DateTime(t.year, t.month, t.day, t.hour, t.minute, t.second, 0)
  }

  /** The length in nanoseconds of one step of phase `q`'s field (1 to 4). */
  function Unit(q: nat): int {
    if q <= 1 then 86_400_000_000_000 else if q == 2 then 3_600_000_000_000
    else if q == 3 then 60_000_000_000 else 1_000_000_000
  }

  /** The next day, hour, minute or second starts one unit after the current one. */
  lemma {:induction false} NextStartOrd(q: nat, t: DateTime)
    requires 1 <= q <= 4 && Valid(t)
    ensures Ord(NextStart(q, t)) == Ord(Floor(q, t)) + Unit(q)
  {
    if q == 1 {
      if t.day == DaysIn(t.year, t.month) {
        MonthStep(t.year, t.month);
      }
    } else if q == 2 {
      if t.hour == 23 {
        NextStartOrd(1, t);
      }
    } else if q == 3 {
      if t.minute == 59 {
        NextStartOrd(2, t);
      }
    } else {
      if t.second == 59 {
        NextStartOrd(3, t);
      }
    }
  }

  /** `AddNanos` is determined by the position it reaches. */
  lemma AddNanosTo(t: DateTime, n: int, u: DateTime)
    requires Valid(t) && Valid(u) && Ord(u) == Ord(t) + n
    ensures AddNanos(t, n) == u
  {
    OrdMonotone(AddNanos(t, n), u);
  }

  /** One pass of the month loop: where the Go operations lead and what the search keeps. */
  lemma MonthPass(s: SpecSchedule, start: DateTime, yearLimit: int, t0: DateTime, prev: DateTime, added: bool)
    requires Searching(s, start, prev, added) && prev.year <= yearLimit && PhasesOk(s, 0, prev)
    requires !PhaseOk(s, 0, prev) && (prev == t0 || Before(t0, prev))
    ensures var base := if added then prev else Date(prev.year, prev.month, 1, 0, 0, 0, 0);
            var t := AddDate(base, 0, 1, 0);
            && Searching(s, start, t, true) && Before(t0, t) && t.year <= yearLimit + 1
            && (Field(0, t) != FieldMin(0) ==>
                  t.year <= yearLimit && PhasesOk(s, 0, t) && Field(0, t) == Field(0, prev) + 1)
  {
    MonthOps(prev);
    AlignedAtFailure(s, 0, prev);
    PhaseStep(s, 0, start, yearLimit, t0, prev, added);
  }

  /** One pass of the day loop: where the Go operations lead and what the search keeps. */
  lemma DayPass(s: SpecSchedule, start: DateTime, yearLimit: int, t0: DateTime, prev: DateTime, added: bool)
    requires Searching(s, start, prev, added) && prev.year <= yearLimit && PhasesOk(s, 1, prev)
    requires !PhaseOk(s, 1, prev) && (prev == t0 || Before(t0, prev))
    ensures var base := if added then prev else Date(prev.year, prev.month, prev.day, 0, 0, 0, 0);
            var t := AddDate(base, 0, 0, 1);
            && Searching(s, start, t, true) && Before(t0, t) && t.year <= yearLimit + 1
            && (Field(1, t) != FieldMin(1) ==>
                  t.year <= yearLimit && PhasesOk(s, 1, t) && Field(1, t) == Field(1, prev) + 1)
  {
    DayOps(prev);
    AlignedAtFailure(s, 1, prev);
    PhaseStep(s, 1, start, yearLimit, t0, prev, added);
  }

  /** One pass of the hour loop: where the Go operations lead and what the search keeps. */
  lemma HourPass(s: SpecSchedule, start: DateTime, yearLimit: int, t0: DateTime, prev: DateTime, added: bool)
    requires Searching(s, start, prev, added) && prev.year <= yearLimit && PhasesOk(s, 2, prev)
    requires !PhaseOk(s, 2, prev) && (prev == t0 || Before(t0, prev))
    ensures var base := if added then prev else Date(prev.year, prev.month, prev.day, prev.hour, 0, 0, 0);
            var t := AddNanos(base, Hour);
            && Searching(s, start, t, true) && Before(t0, t) && t.year <= yearLimit + 1
            && (Field(2, t) != FieldMin(2) ==>
                  t.year <= yearLimit && PhasesOk(s, 2, t) && Field(2, t) == Field(2, prev) + 1)
  {
    HourOps(prev);
    AlignedAtFailure(s, 2, prev);
    PhaseStep(s, 2, start, yearLimit, t0, prev, added);
  }

  /** One pass of the minute loop: where the Go operations lead and what the search keeps. */
  lemma MinutePass(s: SpecSchedule, start: DateTime, yearLimit: int, t0: DateTime, prev: DateTime, added: bool)
    requires Searching(s, start, prev, added) && prev.year <= yearLimit && PhasesOk(s, 3, prev)
    requires !PhaseOk(s, 3, prev) && (prev == t0 || Before(t0, prev))
    ensures var base := if added then prev else TruncateMinute(prev);
            var t := AddNanos(base, Minute);
            && Searching(s, start, t, true) && Before(t0, t) && t.year <= yearLimit + 1
            && (Field(3, t) != FieldMin(3) ==>
                  t.year <= yearLimit && PhasesOk(s, 3, t) && Field(3, t) == Field(3, prev) + 1)
  {
    MinuteOps(prev);
    AlignedAtFailure(s, 3, prev);
    PhaseStep(s, 3, start, yearLimit, t0, prev, added);
  }

  /** One pass of the second loop: where the Go operations lead and what the search keeps. */
  lemma SecondPass(s: SpecSchedule, start: DateTime, yearLimit: int, t0: DateTime, prev: DateTime, added: bool)
    requires Searching(s, start, prev, added) && prev.year <= yearLimit && PhasesOk(s, 4, prev)
    requires !PhaseOk(s, 4, prev) && (prev == t0 || Before(t0, prev))
    ensures var base := if added then prev else TruncateSecond(prev);
            var t := AddNanos(base, Second);
            && Searching(s, start, t, true) && Before(t0, t) && t.year <= yearLimit + 1
            && (Field(4, t) != FieldMin(4) ==>
                  t.year <= yearLimit && PhasesOk(s, 4, t) && Field(4, t) == Field(4, prev) + 1)
  {
    SecondOps(prev);
    AlignedAtFailure(s, 4, prev);
    PhaseStep(s, 4, start, yearLimit, t0, prev, added);
  }

  /** The Go operations of the month loop land on the start of the next month. */
  lemma MonthOps(t: DateTime)
    requires Valid(t)
    ensures AddDate(Date(t.year, t.month, 1, 0, 0, 0, 0), 0, 1, 0) == NextStart(0, t)
    ensures Aligned(t, 0) ==> AddDate(t, 0, 1, 0) == NextStart(0, t)
  {
    var z := DateTime(t.year, t.month, 1, 0, 0, 0, 0);
    DateOfValid(z);
    NormClockInRange(1, 0, 0, 0, 0);
  }

  /** The Go operations of the day loop land on the start of the next day. */
  lemma DayOps(t: DateTime)
    requires Valid(t)
    ensures AddDate(Date(t.year, t.month, t.day, 0, 0, 0, 0), 0, 0, 1) == NextStart(1, t)
    ensures Aligned(t, 1) ==> AddDate(t, 0, 0, 1) == NextStart(1, t)
  {
    var z := Floor(1, t);
    DateOfValid(z);
    assert AddDate(z, 0, 0, 1) == Date(t.year, t.month, t.day + 1, 0, 0, 0, 0);
    DateNextDay(t.year, t.month, t.day);
  }

  /** The Go operations of the hour loop land on the start of the next hour. */
  lemma HourOps(t: DateTime)
    requires Valid(t)
    ensures AddNanos(Date(t.year, t.month, t.day, t.hour, 0, 0, 0), Hour) == NextStart(2, t)
    ensures Aligned(t, 2) ==> AddNanos(t, Hour) == NextStart(2, t)
  {
    var z := Floor(2, t);
    DateOfValid(z);
    NextStartOrd(2, t);
    AddNanosTo(z, Hour, NextStart(2, t));
  }

  /** The Go operations of the minute loop land on the start of the next minute. */
  lemma MinuteOps(t: DateTime)
    requires Valid(t)
    ensures AddNanos(TruncateMinute(t), Minute) == NextStart(3, t)
    ensures Aligned(t, 3) ==> AddNanos(t, Minute) == NextStart(3, t)
  {
    NextStartOrd(3, t);
    AddNanosTo(Floor(3, t), Minute, NextStart(3, t));
  }

  /** The Go operations of the second loop land on the start of the next second. */
  lemma SecondOps(t: DateTime)
    requires Valid(t)
    ensures AddNanos(TruncateSecond(t), Second) == NextStart(4, t)
    ensures t.nano == 0 ==> AddNanos(t, Second) == NextStart(4, t)
  {
    NextStartOrd(4, t);
    AddNanosTo(Floor(4, t), Second, NextStart(4, t));
  }

  /** The first step of `Next` lands on the search's start. */
  lemma StartOps(t: DateTime)
    requires Valid(t)
    ensures AddNanos(t, Second - t.nano) == SearchStart(t)
  {
    var u, r := NextStart(4, t), AddNanos(t, Second - t.nano);
    NextStartOrd(4, t);
    assert Ord(Floor(4, t)) + t.nano == Ord(t);
    OrdMonotone(r, u);
  }

  /** The test of phase `p` depends only on the fields down to phase `p`'s field. */
  lemma PhaseAgree(s: SpecSchedule, p: nat, a: DateTime, b: DateTime)
    requires p <= 4 && 1 <= a.month <= 12 && Agree(p, a, b)
    ensures PhaseOk(s, p, a) == PhaseOk(s, p, b)
  {
  }

  /** Every instant in `[t, NextStart(q, t))` agrees with `t` down to phase `q`'s field. */
  lemma {:induction false} NextStartInterval(q: nat, t: DateTime, u: DateTime)
    requires q <= 4 && Valid(t) && Valid(u)
    requires !Before(u, t) && Before(u, NextStart(q, t))
    ensures Agree(q, t, u)
  {
    if q == 1 && t.day == DaysIn(t.year, t.month) {
      NextStartInterval(0, t, u);
    } else if q == 2 && t.hour == 23 {
      NextStartInterval(1, t, u);
    } else if q == 3 && t.minute == 59 {
      NextStartInterval(2, t, u);
    } else if q == 4 && t.second == 59 {
      NextStartInterval(3, t, u);
    }
  }

  /** Phase `q`'s field is at its maximum, so advancing it carries into a coarser field. */
  predicate AtMax(q: nat, t: DateTime)
    requires 1 <= t.month <= 12
  {
    if q == 0 then t.month == 12
    else if q == 1 then t.day == DaysIn(t.year, t.month)
    else if q == 2 then t.hour == 23
    else if q == 3 then t.minute == 59
    else t.second == 59
  }

  /** Without a carry, `NextStart` increments phase `q`'s field; with one, that field restarts. */
  lemma NextStartStep(q: nat, t: DateTime)
    requires q <= 4 && Valid(t)
    ensures var n := NextStart(q, t);
            !AtMax(q, t) ==> && n.year == t.year && (q > 0 ==> Agree(q - 1, t, n))
                             && Field(q, n) == Field(q, t) + 1 && Field(q, n) != FieldMin(q)
    ensures AtMax(q, t) ==> Field(q, NextStart(q, t)) == FieldMin(q)
    ensures NextStart(q, t).year <= t.year + 1
  {
  }

  /**
   * Where a carry out of phase `q` leaves the search: the next start is aligned
   * at its own first failing phase, provided the phases before `q` held at `t`.
   */
  lemma {:induction false} NextStartAligned(s: SpecSchedule, q: nat, t: DateTime)
    requires q <= 4 && Valid(t)
    requires forall p: nat :: p < q ==> PhaseOk(s, p, t)
    ensures Aligned(NextStart(q, t), FirstMismatch(s, NextStart(q, t)))
  {
    var n := NextStart(q, t);
    if q == 0 {
      AlignedFrom(s, 0, n);
    } else if AtMax(q, t) {
      assert n == NextStart(q - 1, t);
      NextStartAligned(s, q - 1, t);
    } else {
      NoCarryAligned(s, q, t);
    }
  }

  /** Without a carry, the phases before `q` still hold after the step. */
  lemma NoCarryAligned(s: SpecSchedule, q: nat, t: DateTime)
    requires 1 <= q <= 4 && Valid(t) && !AtMax(q, t)
    requires forall p: nat :: p < q ==> PhaseOk(s, p, t)
    ensures forall p: nat :: p < q ==> PhaseOk(s, p, NextStart(q, t))
    ensures Aligned(NextStart(q, t), FirstMismatch(s, NextStart(q, t)))
  {
    var n := NextStart(q, t);
    NextStartStep(q, t);
    forall p: nat | p < q ensures PhaseOk(s, p, n) {
      PhaseAgree(s, p, t, n);
    }
    AlignedFrom(s, q, n);
  }

  /** An instant aligned at phase `q` whose earlier phases hold is aligned at its first failing phase. */
  lemma AlignedFrom(s: SpecSchedule, q: nat, n: DateTime)
    requires q <= 4 && 1 <= n.month <= 12 && Aligned(n, q)
    requires forall p: nat :: p < q ==> PhaseOk(s, p, n)
    ensures Aligned(n, FirstMismatch(s, n))
  {
  }

  /** Advancing phase `q`, which fails at `t`, skips only instants that fail it too. */
  lemma StepSkipsNoMatch(s: SpecSchedule, q: nat, start: DateTime, t: DateTime)
    requires q <= 4 && Valid(t) && !PhaseOk(s, q, t)
    requires NoMatchBetween(s, start, t)
    ensures NoMatchBetween(s, start, NextStart(q, t))
  {
    var n := NextStart(q, t);
    forall u | Valid(u) && u.nano == 0 && !Before(u, start) && Before(u, n)
      ensures !Matches(s, u)
    {
      if !Before(u, t) {
        NextStartInterval(q, t, u);
        PhaseAgree(s, q, t, u);
        assert !PhaseOk(s, q, u);
      }
    }
  }

  /** `Before` or equal, chained. */
  lemma BeforeOrSame(a: DateTime, b: DateTime, c: DateTime)
    requires a == b || Before(a, b)
    requires b == c || Before(b, c)
    ensures a == c || Before(a, c)
    ensures Before(b, c) ==> Before(a, c)
  {
    if Before(a, b) && Before(b, c) {
      BeforeTrans(a, b, c);
    }
  }

  /** The two ways of saying that the phases before `q` pass agree. */
  lemma PhasesOkAll(s: SpecSchedule, q: nat, t: DateTime)
    requires q <= 5 && 1 <= t.month <= 12
    ensures PhasesOk(s, q, t) <==> forall p: nat :: p < q ==> PhaseOk(s, p, t)
  {
    if forall p: nat :: p < q ==> PhaseOk(s, p, t) {
      assert q > 0 ==> PhaseOk(s, 0, t);
      assert q > 1 ==> PhaseOk(s, 1, t);
      assert q > 2 ==> PhaseOk(s, 2, t);
      assert q > 3 ==> PhaseOk(s, 3, t);
      assert q > 4 ==> PhaseOk(s, 4, t);
    }
  }

  /** What one step of phase `q` from `prev` to `NextStart(q, prev)` keeps. */
  lemma PhaseStep(s: SpecSchedule, q: nat, start: DateTime, yearLimit: int, t0: DateTime, prev: DateTime, added: bool)
    requires q <= 4 && Searching(s, start, prev, added) && prev.year <= yearLimit && PhasesOk(s, q, prev)
    requires !PhaseOk(s, q, prev) && (prev == t0 || Before(t0, prev))
    ensures var t := NextStart(q, prev);
            && Searching(s, start, t, true) && Before(t0, t) && t.year <= yearLimit + 1
            && (Field(q, t) != FieldMin(q) ==>
                  t.year <= yearLimit && PhasesOk(s, q, t) && Field(q, t) == Field(q, prev) + 1)
  {
    var t := NextStart(q, prev);
    PhasesOkAll(s, q, prev);
    NextStartAligned(s, q, prev);
    StepSkipsNoMatch(s, q, start, prev);
    NextStartStep(q, prev);
    BeforeOrSame(t0, prev, t);
    if Field(q, t) != FieldMin(q) {
      forall p: nat | p < q ensures PhaseOk(s, p, t) {
        PhaseAgree(s, p, prev, t);
      }
      PhasesOkAll(s, q, t);
    }
  }

  /** Where the search stands at a failing phase `q`: its fields finer than `q` are cleared. */
  lemma AlignedAtFailure(s: SpecSchedule, q: nat, t: DateTime)
    requires q <= 4 && 1 <= t.month <= 12 && PhasesOk(s, q, t) && !PhaseOk(s, q, t)
    ensures FirstMismatch(s, t) == q
  {
    PhasesOkAll(s, q, t);
  }

  /** A whole second after `t0` is no earlier than the search's start. */
  lemma StartIsFirstWholeSecond(t0: DateTime, u: DateTime)
    requires Valid(t0) && Valid(u) && u.nano == 0
    ensures Before(t0, u) <==> !Before(u, SearchStart(t0))
  {
    var start := SearchStart(t0);
    if Before(t0, u) && Before(u, start) {
      NextStartInterval(4, t0, u);
    }
  }

  /** The search passed its horizon: nothing within the horizon matches. */
  lemma NoneCase(s: SpecSchedule, t0: DateTime, start: DateTime, t: DateTime, added: bool)
    requires Valid(t0) && start == SearchStart(t0)
    requires Searching(s, start, t, added) && t.year > YearLimit(t0)
    ensures NoneWithin(s, t0) && Earliest(s, t0) == None
  {
    forall u | Candidate(s, t0, u) ensures u.year > YearLimit(t0) {
      StartIsFirstWholeSecond(t0, u);
    }
  }

  /** The search stopped at a matching second: it is the earliest candidate. */
  lemma SomeCase(s: SpecSchedule, t0: DateTime, start: DateTime, t: DateTime, added: bool)
    requires Valid(t0) && start == SearchStart(t0)
    requires Searching(s, start, t, added) && t.year <= YearLimit(t0) && PhasesOk(s, 5, t)
    ensures Earliest(s, t0) == Some(t)
  {
    StartIsFirstWholeSecond(t0, t);
    assert Candidate(s, t0, t);
    forall v | Candidate(s, t0, v) && Before(v, t) ensures false {
      StartIsFirstWholeSecond(t0, v);
    }
    assert IsEarliest(s, t0, t);
    var r := Earliest(s, t0);
    EarliestUnique(s, t0, t, r.value);
  }

  // ---------------------------------------------------------------------------
  // Examples

  /** Seconds `0`, minutes `30`, every other field `*`. */
  function HalfPast(): SpecSchedule {
    SpecSchedule({0}, {30}, Star(Hours), Star(DaysOfMonth), Star(Months), Star(DaysOfWeek))
  }

  /** `HalfPast` matches exactly the instants at half past the hour on the minute. */
  lemma HalfPastMatches(t: DateTime)
    requires Valid(t)
    ensures Matches(HalfPast(), t) <==> t.minute == 30 && t.second == 0
  {
    var w := Weekday(t.year, t.month, t.day);
    assert Has(Star(DaysOfWeek), w);
    assert Has(Star(DaysOfMonth), t.day);
    assert Has(Star(Months), t.month);
    assert Has(Star(Hours), t.hour);
  }

  /** `t` is the earliest candidate within the horizon, so `Next` returns it. */
  lemma EarliestIs(s: SpecSchedule, t0: DateTime, t: DateTime)
    requires Valid(t0) && Candidate(s, t0, t) && t.year <= YearLimit(t0)
    requires forall v :: Candidate(s, t0, v) ==> !Before(v, t)
    ensures Earliest(s, t0) == Some(t)
  {
    assert IsEarliest(s, t0, t);
    EarliestUnique(s, t0, t, Earliest(s, t0).value);
  }

  /** From 02:10:17 the next half past, with all finer fields reset, is 02:30:00 the same day. */
  lemma HalfPastFromTenPast()
    ensures Earliest(HalfPast(), DateTime(2026, 10, 14, 2, 10, 17, 5)) == Some(DateTime(2026, 10, 14, 2, 30, 0, 0))
  {
    var s, t0, t := HalfPast(), DateTime(2026, 10, 14, 2, 10, 17, 5), DateTime(2026, 10, 14, 2, 30, 0, 0);
    HalfPastMatches(t);
    forall v | Candidate(s, t0, v) ensures !Before(v, t) {
      assert Before(v, t) ==> v.year == 2026 && v.month == 10 && v.day == 14 && v.hour == 2;
      assert Before(v, t) ==> v.minute != 30;
    }
    EarliestIs(s, t0, t);
  }

  /** From 02:45:00 the minute has passed, so the search moves on to 03:30:00. */
  lemma HalfPastFromQuarterTo()
    ensures Earliest(HalfPast(), DateTime(2026, 10, 14, 2, 45, 0, 0)) == Some(DateTime(2026, 10, 14, 3, 30, 0, 0))
  {
    var s, t0, t := HalfPast(), DateTime(2026, 10, 14, 2, 45, 0, 0), DateTime(2026, 10, 14, 3, 30, 0, 0);
    HalfPastMatches(t);
    forall v | Candidate(s, t0, v) ensures !Before(v, t) {
      assert Before(v, t) ==> v.year == 2026 && v.month == 10 && v.day == 14 && (v.hour == 2 || v.hour == 3);
      assert Before(v, t) ==> v.minute != 30;
    }
    EarliestIs(s, t0, t);
  }

  /** February 30 never occurs: `Next` gives up and returns the zero time. */
  lemma FebruaryThirtiethNever(t0: DateTime)
    requires Valid(t0)
    ensures var s := SpecSchedule({0}, {0}, {0}, {30}, {2}, Star(DaysOfWeek));
            Earliest(s, t0) == None && NoneWithin(s, t0)
  {
    var s := SpecSchedule({0}, {0}, {0}, {30}, {2}, Star(DaysOfWeek));
    forall u | Candidate(s, t0, u) ensures false {
    }
  }
}
