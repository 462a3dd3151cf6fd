/**
 * Instants as civil date-time fields in one fixed-offset zone on the proleptic
 * Gregorian calendar (the leap-year rule of ISO 8601), with the operations of Go's
 * `time` package that the scheduler uses: `Date` (with its normalisation of
 * out-of-range fields), `Add`, `AddDate`, `Truncate`, `Before`, `After`, `Sub`,
 * `Weekday` and `Nanosecond`.
 *
 * In a fixed-offset zone civil order is chronological order, so `Before` compares
 * the fields lexicographically; `Ord` gives the absolute position of an instant in
 * nanoseconds since 0001-01-01 00:00:00 of the zone, and the two agree
 * (`OrdMonotone`).
 */
module Civil {

  const NanosPerSecond: int := 1_000_000_000
  /** `time.Second`, `time.Minute`, `time.Hour` as Go Durations (nanoseconds). */
  const Second: int := NanosPerSecond
  const Minute: int := 60 * Second
  const Hour: int := 60 * Minute
  const NanosPerDay: int := 24 * Hour

  /** Range of Go's `time.Duration` (an int64 count of nanoseconds). */
  const MinDuration: int := -0x8000_0000_0000_0000
  const MaxDuration: int := 0x7fff_ffff_ffff_ffff

  type Duration = d: int | MinDuration <= d <= MaxDuration

  datatype DateTime = DateTime(year: int, month: int, day: int,
                               hour: int, minute: int, second: int, nano: int)

  predicate IsLeap(y: int) {
    y % 4 == 0 && (y % 100 != 0 || y % 400 == 0)
  }

  function DaysIn(y: int, m: int): (n: int)
    requires 1 <= m <= 12
    ensures 28 <= n <= 31
    ensures n == 29 <==> m == 2 && IsLeap(y)
  {
    if m == 2 then (if IsLeap(y) then 29 else 28)
    else if m == 4 || m == 6 || m == 9 || m == 11 then 30
    else 31
  }

  /** The fields name a real second of the calendar (Go has no leap seconds). */
  predicate Valid(t: DateTime) {
    && 1 <= t.month <= 12
    && 1 <= t.day <= DaysIn(t.year, t.month)
    && 0 <= t.hour < 24
    && 0 <= t.minute < 60
    && 0 <= t.second < 60
    && 0 <= t.nano < NanosPerSecond
  }

  /** Days from 0001-01-01 to January 1 of year `y` (negative before year 1). */
  function DaysBeforeYear(y: int): int {
    var p := y - 1;
    365 * p + p / 4 - p / 100 + p / 400
  }

  /** Days from January 1 to the first of month `m` of year `y`. */
  function DaysBeforeMonth(y: int, m: int): int
    requires 1 <= m <= 12
  {
    var common :=
      if m == 1 then 0 else if m == 2 then 31 else if m == 3 then 59
      else if m == 4 then 90 else if m == 5 then 120 else if m == 6 then 151
      else if m == 7 then 181 else if m == 8 then 212 else if m == 9 then 243
      else if m == 10 then 273 else if m == 11 then 304 else 334;
    if m > 2 && IsLeap(y) then common + 1 else common
  }

  /** Day number of a date, counted from 0001-01-01 (day 0); `d` may lie outside the month. */
  function DaysFromCivil(y: int, m: int, d: int): int
    requires 1 <= m <= 12
  {
    DaysBeforeYear(y) + DaysBeforeMonth(y, m) + d - 1
  }

  /** Go's `Weekday`: Sunday is 0; 0001-01-01 was a Monday. */
  function Weekday(y: int, m: int, d: int): (w: int)
    requires 1 <= m <= 12
    ensures 0 <= w < 7
  {
    (DaysFromCivil(y, m, d) + 1) % 7
  }

  /** Position of an instant in nanoseconds since 0001-01-01 00:00:00 of the zone. */
  function Ord(t: DateTime): int
    requires 1 <= t.month <= 12
  {
    DaysFromCivil(t.year, t.month, t.day) * 86_400_000_000_000 + ClockNanos(t)
  }

  /** Nanoseconds since midnight. */
  function ClockNanos(t: DateTime): int {
    t.hour * 3_600_000_000_000 + t.minute * 60_000_000_000 + t.second * 1_000_000_000 + t.nano
  }

  /** Go's `Before` on two instants of the zone. */
  predicate Before(a: DateTime, b: DateTime) {
    if a.year != b.year then a.year < b.year
    else if a.month != b.month then a.month < b.month
    else if a.day != b.day then a.day < b.day
    else if a.hour != b.hour then a.hour < b.hour
    else if a.minute != b.minute then a.minute < b.minute
    else if a.second != b.second then a.second < b.second
    else a.nano < b.nano
  }

  /** Go's `After`. */
  predicate After(a: DateTime, b: DateTime) {
    Before(b, a)
  }

  /**
   * Normalises a day number `d` that may lie outside month `m` of year `y` into
   * a real date, carrying whole months forwards or backwards.
   */
  function NormDays(y: int, m: int, d: int): (r: (int, int, int))
    requires 1 <= m <= 12
    ensures 1 <= r.1 <= 12 && 1 <= r.2 <= DaysIn(r.0, r.1)
    ensures DaysFromCivil(r.0, r.1, r.2) == DaysFromCivil(y, m, d)
    decreases if d < 1 then 1 - d else 0, if d > DaysIn(y, m) then d else 0
  {
    if d < 1 then
      var py := if m == 1 then y - 1 else y;
      var pm := if m == 1 then 12 else m - 1;
      MonthStep(py, pm);
      NormDays(py, pm, d + DaysIn(py, pm))
    else if d > DaysIn(y, m) then
      var ny := if m == 12 then y + 1 else y;
      var nm := if m == 12 then 1 else m + 1;
      MonthStep(y, m);
      NormDays(ny, nm, d - DaysIn(y, m))
    else
      (y, m, d)
  }

  /**
   * Carries an out-of-range clock reading (nanosecond into second, second into
   * minute, minute into hour, hour into day), as `time.Date` does.
   */
  function NormClock(day: int, hour: int, minute: int, second: int, nano: int): (c: (int, int, int, int, int))
    ensures 0 <= c.1 < 24 && 0 <= c.2 < 60 && 0 <= c.3 < 60 && 0 <= c.4 < NanosPerSecond
    ensures c.0 * 86_400_000_000_000 + c.1 * 3_600_000_000_000 + c.2 * 60_000_000_000 + c.3 * 1_000_000_000 + c.4
         == day * 86_400_000_000_000 + hour * 3_600_000_000_000 + minute * 60_000_000_000 + second * 1_000_000_000 + nano
  {
    var s := second + nano / 1_000_000_000;
    var mi := minute + s / 60;
    var h := hour + mi / 60;
    var d := day + h / 24;
    assert s * 1_000_000_000 + nano % 1_000_000_000 == second * 1_000_000_000 + nano;
    assert mi * 60 + s % 60 == minute * 60 + s;
    assert h * 60 + mi % 60 == hour * 60 + mi;
    assert d * 24 + h % 24 == day * 24 + h;
    (d, h % 24, mi % 60, s % 60, nano % 1_000_000_000)
  }

  /** A clock reading already in range is left alone. */
  lemma NormClockInRange(day: int, hour: int, minute: int, second: int, nano: int)
    requires 0 <= hour < 24 && 0 <= minute < 60 && 0 <= second < 60 && 0 <= nano < NanosPerSecond
    ensures NormClock(day, hour, minute, second, nano) == (day, hour, minute, second, nano)
  {
  }

  /**
   * Go's `time.Date` in the zone: month, nanosecond, second, minute, hour and
   * day may be out of range and are normalised, in that order, with floor
   * division (Dafny's `/` and `%` with a positive divisor).
   */
  function Date(year: int, month: int, day: int, hour: int, minute: int, second: int, nano: int): (t: DateTime)
    ensures Valid(t)
  {
    var y := year + (month - 1) / 12;
    var m := (month - 1) % 12 + 1;
    var c := NormClock(day, hour, minute, second, nano);
    var ymd := NormDays(y, m, c.0);
    DateTime(ymd.0, ymd.1, ymd.2, c.1, c.2, c.3, c.4)
  }

  /** Go's `t.Add(n)` for a duration of `n` nanoseconds. */
  function AddNanos(t: DateTime, n: int): (r: DateTime)
    requires Valid(t)
    ensures Valid(r) && Ord(r) == Ord(t) + n
  {
    AddNanosOrd(t, n);
    Date(t.year, t.month, t.day, t.hour, t.minute, t.second, t.nano + n)
  }

  /** Go's `t.AddDate(years, months, days)`. */
  function AddDate(t: DateTime, years: int, months: int, days: int): (r: DateTime)
    ensures Valid(r)
  {
    Date(t.year + years, t.month + months, t.day + days, t.hour, t.minute, t.second, t.nano)
  }

  /** Go's `t.Truncate(time.Minute)`, for a zone whose offset is a whole number of minutes. */
  function TruncateMinute(t: DateTime): (r: DateTime)
    requires Valid(t)
    ensures Valid(r) && r.second == 0 && r.nano == 0
    ensures !Before(t, r) && Ord(t) - Ord(r) < Minute
  {
    DateTime(t.year, t.month, t.day, t.hour, t.minute, 0, 0)
  }

  /** Go's `t.Truncate(time.Second)`. */
  function TruncateSecond(t: DateTime): (r: DateTime)
    requires Valid(t)
    ensures Valid(r) && r.nano == 0 && Ord(r) == Ord(t) - t.nano
  {
    DateTime(t.year, t.month, t.day, t.hour, t.minute, t.second, 0)
  }

  /** Saturation of an exact nanosecond difference to the Duration range. */
  function Saturate(n: int): (d: Duration)
    ensures MinDuration <= n <= MaxDuration ==> d == n
    ensures n > MaxDuration ==> d == MaxDuration
    ensures n < MinDuration ==> d == MinDuration
  {
    if n > MaxDuration then MaxDuration else if n < MinDuration then MinDuration else n
  }

  /** Go's `a.Sub(b)`: the elapsed time, saturated to the Duration range. */
  function Sub(a: DateTime, b: DateTime): (d: Duration)
    requires Valid(a) && Valid(b)
    ensures d > 0 <==> Before(b, a)
    ensures d == 0 <==> a == b
    ensures d < 0 <==> Before(a, b)
  {
    OrdMonotone(a, b);
    OrdMonotone(b, a);
    Saturate(Ord(a) - Ord(b))
  }

  // ---------------------------------------------------------------------------
  // Calendar arithmetic

  lemma DivStep(p: int)
    ensures (p + 1) / 4 - p / 4 == if (p + 1) % 4 == 0 then 1 else 0
    ensures (p + 1) / 100 - p / 100 == if (p + 1) % 100 == 0 then 1 else 0
    ensures (p + 1) / 400 - p / 400 == if (p + 1) % 400 == 0 then 1 else 0
  {
  }

  /** A year has 366 days exactly when it is a leap year. */
  lemma YearStep(y: int)
    ensures DaysBeforeYear(y + 1) == DaysBeforeYear(y) + (if IsLeap(y) then 366 else 365)
  {
    var p := y - 1;
    DivStep(p);
    assert y % 400 == 0 ==> y % 100 == 0 && y % 4 == 0;
    assert y % 100 == 0 ==> y % 4 == 0;
  }

  /** The first of the next month lies `DaysIn(y, m)` days after the first of this one. */
  lemma MonthStep(y: int, m: int)
    requires 1 <= m <= 12
    ensures m < 12 ==> DaysFromCivil(y, m + 1, 1) == DaysFromCivil(y, m, 1) + DaysIn(y, m)
    ensures m == 12 ==> DaysFromCivil(y + 1, 1, 1) == DaysFromCivil(y, m, 1) + DaysIn(y, m)
  {
    if m == 12 {
      YearStep(y);
    }
  }

  lemma {:induction false} DaysBeforeYearMonotone(a: int, b: int)
    requires a <= b
    ensures DaysBeforeYear(a) + 365 * (b - a) <= DaysBeforeYear(b)
    decreases b - a
  {
    if a < b {
      YearStep(a);
      DaysBeforeYearMonotone(a + 1, b);
    }
  }

  /** A valid date falls inside its year. */
  lemma DayInYear(y: int, m: int, d: int)
    requires 1 <= m <= 12 && 1 <= d <= DaysIn(y, m)
    ensures DaysBeforeYear(y) <= DaysFromCivil(y, m, d) < DaysBeforeYear(y + 1)
  {
    YearStep(y);
  }

  /** Day numbers of valid dates follow calendar order. */
  lemma DaysMonotone(a: DateTime, b: DateTime)
    requires Valid(a) && Valid(b)
    requires a.year < b.year || (a.year == b.year && (a.month < b.month || (a.month == b.month && a.day < b.day)))
    ensures DaysFromCivil(a.year, a.month, a.day) < DaysFromCivil(b.year, b.month, b.day)
  {
    if a.year < b.year {
      DayInYear(a.year, a.month, a.day);
      DayInYear(b.year, b.month, b.day);
      DaysBeforeYearMonotone(a.year + 1, b.year);
    }
  }

  /** On one day, clock readings follow the order of the clock fields. */
  lemma ClockMonotone(a: DateTime, b: DateTime)
    requires Valid(a) && Valid(b)
    requires a.year == b.year && a.month == b.month && a.day == b.day
    ensures Before(a, b) <==> ClockNanos(a) < ClockNanos(b)
    ensures a == b <==> ClockNanos(a) == ClockNanos(b)
  {
  }

  /** Chronological order of the zone and the order of absolute positions agree. */
  lemma OrdMonotone(a: DateTime, b: DateTime)
    requires Valid(a) && Valid(b)
    ensures Before(a, b) <==> Ord(a) < Ord(b)
    ensures a == b <==> Ord(a) == Ord(b)
  {
    if a.year != b.year || a.month != b.month || a.day != b.day {
      var da := DaysFromCivil(a.year, a.month, a.day);
      var db := DaysFromCivil(b.year, b.month, b.day);
      assert 0 <= ClockNanos(a) < 86_400_000_000_000 && 0 <= ClockNanos(b) < 86_400_000_000_000;
      if a.year < b.year || (a.year == b.year && (a.month < b.month || (a.month == b.month && a.day < b.day))) {
        DaysMonotone(a, b);
        assert Before(a, b) && Ord(a) < Ord(b);
      } else {
        DaysMonotone(b, a);
        assert Before(b, a) && Ord(b) < Ord(a);
      }
    } else {
      ClockMonotone(a, b);
    }
  }

  /** Two instants are equal or one is before the other. */
  lemma BeforeTotal(a: DateTime, b: DateTime)
    ensures a == b || Before(a, b) || Before(b, a)
  {
  }

  /** `Date` leaves fields that are already in range as they are. */
  lemma DateOfValid(t: DateTime)
    requires Valid(t)
    ensures Date(t.year, t.month, t.day, t.hour, t.minute, t.second, t.nano) == t
  {
    NormClockInRange(t.day, t.hour, t.minute, t.second, t.nano);
    DateInMonth(t.year, t.month, t.day, t.hour, t.minute, t.second, t.nano);
  }

  /** `Date` with a month already in range normalises only the clock and the day. */
  lemma DateInMonth(year: int, month: int, day: int, hour: int, minute: int, second: int, nano: int)
    requires 1 <= month <= 12
    ensures var c := NormClock(day, hour, minute, second, nano);
            var ymd := NormDays(year, month, c.0);
            Date(year, month, day, hour, minute, second, nano) == DateTime(ymd.0, ymd.1, ymd.2, c.1, c.2, c.3, c.4)
  {
    assert (month - 1) / 12 == 0 && (month - 1) % 12 + 1 == month;
  }

  lemma AddNanosOrd(t: DateTime, n: int)
    requires Valid(t)
    ensures Ord(Date(t.year, t.month, t.day, t.hour, t.minute, t.second, t.nano + n)) == Ord(t) + n
  {
    var c := NormClock(t.day, t.hour, t.minute, t.second, t.nano + n);
    var ymd := NormDays(t.year, t.month, c.0);
    var r := Date(t.year, t.month, t.day, t.hour, t.minute, t.second, t.nano + n);
    DateInMonth(t.year, t.month, t.day, t.hour, t.minute, t.second, t.nano + n);
    var days := DaysFromCivil(t.year, t.month, t.day);
    assert DaysFromCivil(ymd.0, ymd.1, ymd.2) == days + (c.0 - t.day);
    assert Ord(r) == (days + (c.0 - t.day)) * 86_400_000_000_000 + ClockNanos(r);
  }

  /** The day after a real date: the next day of the month, or the first of the next month. */
  lemma NormDaysNext(y: int, m: int, d: int)
    requires 1 <= m <= 12 && 1 <= d <= DaysIn(y, m)
    ensures NormDays(y, m, d + 1) ==
              if d < DaysIn(y, m) then (y, m, d + 1)
              else if m == 12 then (y + 1, 1, 1)
              else (y, m + 1, 1)
  {
  }

  /** `Date` one day past a real date. */
  lemma DateNextDay(y: int, m: int, d: int)
    requires 1 <= m <= 12 && 1 <= d <= DaysIn(y, m)
    ensures Date(y, m, d + 1, 0, 0, 0, 0) ==
              if d < DaysIn(y, m) then DateTime(y, m, d + 1, 0, 0, 0, 0)
              else if m == 12 then DateTime(y + 1, 1, 1, 0, 0, 0, 0)
              else DateTime(y, m + 1, 1, 0, 0, 0, 0)
  {
    NormClockInRange(d + 1, 0, 0, 0, 0);
    NormDaysNext(y, m, d);
    DateInMonth(y, m, d + 1, 0, 0, 0, 0);
  }

  /** `Before` is transitive. */
  lemma BeforeTrans(a: DateTime, b: DateTime, c: DateTime)
    requires Before(a, b) && Before(b, c)
    ensures Before(a, c)
  {
  }

  /** The day after `(y, m, d)` has the next weekday. */
  lemma WeekdayNextDay(y: int, m: int, d: int)
    requires 1 <= m <= 12 && 1 <= d <= DaysIn(y, m)
    ensures var n := NormDays(y, m, d + 1);
            Weekday(n.0, n.1, n.2) == (Weekday(y, m, d) + 1) % 7
  {
    var n := NormDays(y, m, d + 1);
    ModSucc(DaysFromCivil(y, m, d) + 1);
  }

  lemma ModSucc(x: int)
    ensures (x + 1) % 7 == (x % 7 + 1) % 7
  {
  }

  /** 1970-01-01 was a Thursday. */
  lemma UnixEpochIsThursday()
    ensures Weekday(1970, 1, 1) == 4
  {
  }

  /** `Sub` inverts `AddNanos` for differences within the Duration range. */
  lemma SubAddNanos(t: DateTime, n: Duration)
    requires Valid(t)
    ensures Sub(AddNanos(t, n), t) == n
  {
  }
}
