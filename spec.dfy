/**
 * The calendar-field schedule of spec.go: six bit masks, one per calendar
 * field, where bit `v` set permits value `v`, plus the wildcard sentinel bit 63
 * that records that the field was written as `*`; and the test of an instant
 * against it.
 */
module Spec {
  import opened Civil

  /** Range of acceptable values of one field (spec.go `bounds`; the name tables belong to the parser). */
  datatype Bounds = Bounds(min: nat, max: nat)

  const Seconds := Bounds(0, 59)
  const Minutes := Bounds(0, 59)
  const Hours := Bounds(0, 23)
  const DaysOfMonth := Bounds(1, 31)
  const Months := Bounds(1, 12)
  const DaysOfWeek := Bounds(0, 6)

  /**
   * A `uint64` bit set, represented by the positions of its set bits: bit `v` set
   * means that value `v` of the field is permitted.
   */
  type Mask = m: set<int> | forall v | v in m :: 0 <= v < 64

  /** The position of the bit set in a field's mask when the expression held a `*` there. */
  const StarBit: int := 63

  datatype SpecSchedule = SpecSchedule(second: Mask, minute: Mask, hour: Mask,
                                       dom: Mask, month: Mask, dow: Mask)

  /** `1<<uint(v) & mask != 0`: bit `v` is set (a shift by 64 or more yields 0 in Go). */
  predicate Has(mask: Mask, v: int) {
    v in mask
  }

  /** spec.go `dayMatches`. */
  predicate DayMatches(s: SpecSchedule, t: DateTime)
    requires 1 <= t.month <= 12
  {
    var domMatch := Has(s.dom, t.day);
    var dowMatch := Has(s.dow, Weekday(t.year, t.month, t.day));
    if Has(s.dom, StarBit) || Has(s.dow, StarBit) then domMatch && dowMatch
    else domMatch || dowMatch
  }

  /** The instant satisfies every field of the schedule. */
  predicate Matches(s: SpecSchedule, t: DateTime)
    requires 1 <= t.month <= 12
  {
    Has(s.month, t.month) && DayMatches(s, t) && Has(s.hour, t.hour)
      && Has(s.minute, t.minute) && Has(s.second, t.second)
  }

  /** Value `v` lies in the range `b`. */
  predicate InRange(b: Bounds, v: int) {
    b.min <= v <= b.max
  }

  /** The mask the parser builds for `*` in a field with bounds `b`: every value in range, plus the star bit. */
  function Star(b: Bounds): (m: Mask)
    requires b.max < 64
    ensures forall v :: v in m <==> (InRange(b, v) || v == StarBit)
  {
    set v | 0 <= v < 64 && (InRange(b, v) || v == StarBit)
  }

  /** The star bit lies above every field's range, so no instant's field value is ever tested against it. */
  lemma StarBitAboveBounds(t: DateTime)
    requires Valid(t)
    ensures Seconds.max < StarBit && Minutes.max < StarBit && Hours.max < StarBit
    ensures DaysOfMonth.max < StarBit && Months.max < StarBit && DaysOfWeek.max < StarBit
    ensures t.second != StarBit && t.minute != StarBit && t.hour != StarBit
    ensures t.day != StarBit && t.month != StarBit && Weekday(t.year, t.month, t.day) != StarBit
  {
  }

  /** Setting the star bit of the month, hour, minute and second masks changes no match. */
  lemma StarBitInvisible(s: SpecSchedule, t: DateTime)
    requires Valid(t)
    ensures var starred := s.(second := s.second + {StarBit}, minute := s.minute + {StarBit},
                              hour := s.hour + {StarBit}, month := s.month + {StarBit});
            Matches(starred, t) == Matches(s, t)
  {
  }

  /** With both day fields restricted (no star bit), a day matches when either field allows it. */
  lemma DayMatchesEither(s: SpecSchedule, t: DateTime)
    requires Valid(t) && !Has(s.dom, StarBit) && !Has(s.dow, StarBit)
    ensures DayMatches(s, t) <==> Has(s.dom, t.day) || Has(s.dow, Weekday(t.year, t.month, t.day))
  {
  }

  /** With the star bit on either day field, a day matches when both fields allow it. */
  lemma DayMatchesBoth(s: SpecSchedule, t: DateTime)
    requires Valid(t) && (Has(s.dom, StarBit) || Has(s.dow, StarBit))
    ensures DayMatches(s, t) <==> Has(s.dom, t.day) && Has(s.dow, Weekday(t.year, t.month, t.day))
  {
  }

  /** A weekday field written `*` leaves the decision to the day of the month. */
  lemma DayMatchesStarDow(s: SpecSchedule, t: DateTime)
    requires Valid(t) && s.dow == Star(DaysOfWeek)
    ensures DayMatches(s, t) <==> Has(s.dom, t.day)
  {
  }

  /** A day-of-month field written `*` leaves the decision to the weekday. */
  lemma DayMatchesStarDom(s: SpecSchedule, t: DateTime)
    requires Valid(t) && s.dom == Star(DaysOfMonth)
    ensures DayMatches(s, t) <==> Has(s.dow, Weekday(t.year, t.month, t.day))
  {
  }
}
