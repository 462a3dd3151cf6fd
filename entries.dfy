/**
 * The entries of cron.go and what is said about lists of them: the `byTime`
 * order and a sort by it, removal and lookup by ID, the due prefix a wake-up
 * starts, and the timer choice. The `Cron` class in module `Scheduler` is
 * specified with these.
 */
module Entries {
  import opened Civil
  import opened Wrappers
  import Spec
  import SpecSearch
  import SpecNext
  import ConstantDelay

  /** A submitted job (Go `Job`), known by its name. */
  datatype Job = Job(name: string)

  /** The schedules of the library (Go `Schedule`): calendar fields or a constant delay. */
  datatype Schedule =
    | Calendar(spec: Spec.SpecSchedule)
    | Constant(delay: ConstantDelay.ConstantDelaySchedule)

  /** cron.go `EntryID`. */
  type EntryID = int

  /**
   * cron.go `Entry`. `None` stands for Go's zero time in `next` and `prev`, and
   * for a nil schedule or job in the zero entry.
   */
  datatype Entry = Entry(id: EntryID, schedule: Option<Schedule>, next: Option<DateTime>,
                         prev: Option<DateTime>, wrappedJob: Option<Job>, job: Option<Job>)
  {
    /** cron.go `Entry.Valid`: this is not the zero entry. */
    predicate Valid() {
      id != 0
    }
  }

  /** Go's zero `Entry{}`. */
  const ZeroEntry := Entry(0, None, None, None, None, None)

  /** The zero entry is not valid; `Valid` rejects exactly the entries with ID 0. */
  lemma ZeroEntryNotValid(e: Entry)
    ensures !ZeroEntry.Valid()
    ensures e.Valid() <==> e.id != 0
  {
  }

  // ---------------------------------------------------------------------------
  // Schedules

  /** What `Schedule.Next(now)` answers: the next activation after `now`, `None` for the zero time. */
  ghost function NextOf(s: Schedule, now: DateTime): (r: Option<DateTime>)
    requires Valid(now)
    ensures r.Some? ==> Valid(r.value)
    ensures r.Some? && Forward(s) ==> Before(now, r.value)
    ensures s.Constant? ==> r.Some?
  {
    match s
    case Calendar(spec) =>
      SpecSearch.EarliestMeans(spec, now);
      SpecSearch.Earliest(spec, now)
    case Constant(c) =>
      ConstantDelay.NextAfter(c, now);
      Some(ConstantDelay.Next(c, now))
  }

  /**
   * The schedules whose activations always lie strictly after the instant
   * asked about: every calendar schedule, and every constant delay of at least
   * one second (all those built by `Every`).
   */
  predicate Forward(s: Schedule) {
    s.Calendar? || s.delay.delay >= Second
  }

  /** The call `Schedule.Next(now)`, dispatched on the kind of schedule. */
  method ScheduleNext(s: Schedule, now: DateTime) returns (r: Option<DateTime>)
    requires Valid(now)
    ensures r == NextOf(s, now)
    ensures r.Some? ==> Valid(r.value) && (Forward(s) ==> Before(now, r.value))
  {
    match s
    case Calendar(spec) =>
      r := SpecNext.Next(spec, now);
      SpecSearch.EarliestMeans(spec, now);
    case Constant(c) =>
      r := Some(ConstantDelay.Next(c, now));
  }

  // ---------------------------------------------------------------------------
  // byTime

  /** cron.go `byTime.Less`: by next activation, with zero times after every other time. */
  predicate Less(a: Entry, b: Entry) {
    if a.next.None? then false
    else if b.next.None? then true
    else Before(a.next.value, b.next.value)
  }

  /** Neither entry sorts before the other. */
  predicate Equivalent(a: Entry, b: Entry) {
    !Less(a, b) && !Less(b, a)
  }

  /** `Less` is a strict weak order, with all zero-time entries in one class at the end. */
  lemma LessIsStrictWeakOrder(a: Entry, b: Entry, c: Entry)
    ensures !Less(a, a)
    ensures Less(a, b) ==> !Less(b, a)
    ensures Less(a, b) && Less(b, c) ==> Less(a, c)
    ensures Equivalent(a, b) && Equivalent(b, c) ==> Equivalent(a, c)
    ensures a.next.None? ==> !Less(a, b)
    ensures a.next.Some? && b.next.None? ==> Less(a, b)
    ensures a.next.None? && b.next.None? ==> Equivalent(a, b)
    ensures a.next.Some? && b.next.Some? ==> (Less(a, b) <==> Before(a.next.value, b.next.value))
  {
    if a.next.Some? && b.next.Some? && c.next.Some? {
      var x, y, z := a.next.value, b.next.value, c.next.value;
      if Before(x, y) && Before(y, z) {
        BeforeTrans(x, y, z);
      }
      BeforeTotal(x, y);
      BeforeTotal(y, z);
    }
    if a.next.Some? && b.next.Some? {
      BeforeTotal(a.next.value, b.next.value);
    }
  }

  /** If neither `a < b` nor `b < c`, then not `a < c`. */
  lemma NotLessTrans(a: Entry, b: Entry, c: Entry)
    requires !Less(a, b) && !Less(b, c)
    ensures !Less(a, c)
  {
    if a.next.Some? && b.next.Some? && c.next.Some? {
      var x, y, z := a.next.value, b.next.value, c.next.value;
      BeforeTotal(x, y);
      BeforeTotal(y, z);
      if Before(x, z) {
        if Before(y, x) {
          BeforeTrans(y, x, z);
        }
      }
    }
  }

  /** No entry sorts before an earlier one (the order `sort.Sort(byTime(...))` establishes). */
  predicate SortedByTime(es: seq<Entry>) {
    forall i, j :: 0 <= i < j < |es| ==> !Less(es[j], es[i])
  }

  /** A sorted list holds the entries with a next time first, in ascending order, then those without. */
  lemma SortedShape(es: seq<Entry>, i: int, j: int)
    requires SortedByTime(es) && 0 <= i < j < |es|
    ensures es[i].next.None? ==> es[j].next.None?
    ensures es[i].next.Some? && es[j].next.Some? ==> !Before(es[j].next.value, es[i].next.value)
  {
  }

  /** `x` placed before the first entry that it does not follow. */
  function Insert(x: Entry, s: seq<Entry>): (r: seq<Entry>)
    ensures multiset(r) == multiset(s) + multiset{x}
  {
    if |s| == 0 || !Less(s[0], x) then [x] + s
    else
      assert s == [s[0]] + s[1..];
      [s[0]] + Insert(x, s[1..])
  }

  /**
   * A sort by `Less`. It stands in for Go's `sort.Sort`, whose order among
   * equivalent entries is unspecified; only its being sorted and a permutation
   * is relied on.
   */
  function SortByTime(es: seq<Entry>): (r: seq<Entry>)
    ensures multiset(r) == multiset(es)
  {
    if |es| == 0 then []
    else
      assert es == [es[0]] + es[1..];
      Insert(es[0], SortByTime(es[1..]))
  }

  lemma {:induction false} InsertSorted(x: Entry, s: seq<Entry>)
    requires SortedByTime(s)
    ensures SortedByTime(Insert(x, s))
  {
    if |s| == 0 {
    } else if !Less(s[0], x) {
      forall j | 0 <= j < |s|
        ensures !Less(s[j], x)
      {
        if j > 0 {
          NotLessTrans(s[j], s[0], x);
        }
      }
    } else {
      InsertSorted(x, s[1..]);
      var rest := Insert(x, s[1..]);
      forall e | e in rest
        ensures !Less(e, s[0])
      {
        assert e in multiset(rest);
        if e == x {
          LessIsStrictWeakOrder(s[0], x, x);
        } else {
          assert e in s[1..];
        }
      }
      assert forall j :: 0 <= j < |rest| ==> rest[j] in rest;
    }
  }

  /** `SortByTime` sorts. */
  lemma {:induction false} SortByTimeSorted(es: seq<Entry>)
    ensures SortedByTime(SortByTime(es))
  {
    if |es| > 0 {
      SortByTimeSorted(es[1..]);
      InsertSorted(es[0], SortByTime(es[1..]));
    }
  }

  /** No two entries share an ID. */
  predicate DistinctIds(es: seq<Entry>) {
    forall i, j :: 0 <= i < j < |es| ==> es[i].id != es[j].id
  }

  lemma {:induction false} InsertDistinct(x: Entry, s: seq<Entry>)
    requires DistinctIds(s) && forall e | e in s :: e.id != x.id
    ensures DistinctIds(Insert(x, s))
  {
    if |s| > 0 && Less(s[0], x) {
      InsertDistinct(x, s[1..]);
      var rest := Insert(x, s[1..]);
      forall e | e in rest
        ensures e.id != s[0].id
      {
        assert e in multiset(rest);
        if e != x {
          assert e in s[1..];
        }
      }
      assert forall j :: 0 <= j < |rest| ==> rest[j] in rest;
    }
  }

  /** Sorting keeps the IDs distinct. */
  lemma {:induction false} SortByTimeDistinct(es: seq<Entry>)
    requires DistinctIds(es)
    ensures DistinctIds(SortByTime(es))
  {
    if |es| > 0 {
      SortByTimeDistinct(es[1..]);
      var sorted := SortByTime(es[1..]);
      forall e | e in sorted
        ensures e.id != es[0].id
      {
        assert e in multiset(sorted);
      }
      InsertDistinct(es[0], sorted);
    }
  }

  // ---------------------------------------------------------------------------
  // The entry list

  /** What every entry registered with a `Cron` satisfies. */
  ghost predicate Registered(e: Entry, nextID: EntryID) {
    && 0 < e.id <= nextID
    && e.schedule.Some? && e.wrappedJob.Some? && e.job.Some?
    && (e.next.Some? ==> Valid(e.next.value))
  }

  /** The entries with an ID other than `id`, in their order. */
  function Without(es: seq<Entry>, id: EntryID): seq<Entry> {
    if |es| == 0 then []
    else
      var last := es[|es| - 1];
      Without(es[..|es| - 1], id) + (if last.id != id then [last] else [])
  }

  /** `Without` keeps exactly the entries whose ID differs from `id`. */
  lemma {:induction false} WithoutMeans(es: seq<Entry>, id: EntryID)
    ensures forall e :: e in Without(es, id) <==> e in es && e.id != id
    ensures |Without(es, id)| <= |es|
  {
    if |es| > 0 {
      WithoutMeans(es[..|es| - 1], id);
      assert es == es[..|es| - 1] + [es[|es| - 1]];
    }
  }

  /** An ID that no entry carries leaves the list as it is. */
  lemma {:induction false} WithoutUnknown(es: seq<Entry>, id: EntryID)
    requires forall e | e in es :: e.id != id
    ensures Without(es, id) == es
  {
    if |es| > 0 {
      WithoutUnknown(es[..|es| - 1], id);
      assert es == es[..|es| - 1] + [es[|es| - 1]];
    }
  }

  /** Removing keeps the IDs distinct. */
  lemma {:induction false} WithoutDistinct(es: seq<Entry>, id: EntryID)
    requires DistinctIds(es)
    ensures DistinctIds(Without(es, id))
  {
    if |es| > 0 {
      var init, last := es[..|es| - 1], es[|es| - 1];
      WithoutDistinct(init, id);
      WithoutMeans(init, id);
      var kept := Without(init, id);
      forall e | e in kept
        ensures e.id != last.id
      {
        assert e in init;
      }
      assert forall j :: 0 <= j < |kept| ==> kept[j] in kept;
    }
  }

  /** With distinct IDs, removing a registered ID drops exactly one entry. */
  lemma {:induction false} WithoutOne(es: seq<Entry>, id: EntryID, i: int)
    requires DistinctIds(es) && 0 <= i < |es| && es[i].id == id
    ensures Without(es, id) == es[..i] + es[i + 1..]
  {
    var init, last := es[..|es| - 1], es[|es| - 1];
    if i == |es| - 1 {
      WithoutUnknown(init, id);
    } else {
      WithoutOne(init, id, i);
      assert init[..i] + init[i + 1..] + [last] == es[..i] + es[i + 1..];
    }
  }

  /** `b` updates only the times of the entries of `a`. */
  predicate SameEntries(a: seq<Entry>, b: seq<Entry>) {
    && |a| == |b|
    && forall k :: 0 <= k < |a| ==>
         b[k].id == a[k].id && b[k].schedule == a[k].schedule && b[k].wrappedJob == a[k].wrappedJob && b[k].job == a[k].job
  }

  /** Updating the times of registered entries, to valid instants, keeps them registered. */
  lemma KeepsRegistered(a: seq<Entry>, b: seq<Entry>, nextID: EntryID)
    requires DistinctIds(a) && forall k :: 0 <= k < |a| ==> Registered(a[k], nextID)
    requires SameEntries(a, b) && forall k :: 0 <= k < |b| && b[k].next.Some? ==> Valid(b[k].next.value)
    ensures DistinctIds(b) && forall k :: 0 <= k < |b| ==> Registered(b[k], nextID)
  {
  }

  /** The first entry with ID `id`, or the zero entry. */
  function Lookup(es: seq<Entry>, id: EntryID): Entry {
    if |es| == 0 then ZeroEntry
    else if es[0].id == id then es[0]
    else Lookup(es[1..], id)
  }

  /** `Lookup` finds the first entry carrying the ID, and yields the zero entry when there is none. */
  lemma {:induction false} LookupMeans(es: seq<Entry>, id: EntryID)
    ensures (forall e | e in es :: e.id != id) ==> Lookup(es, id) == ZeroEntry
    ensures forall i :: 0 <= i < |es| && es[i].id == id && (forall j :: 0 <= j < i ==> es[j].id != id) ==>
              Lookup(es, id) == es[i]
  {
    if |es| > 0 {
      LookupMeans(es[1..], id);
      forall i | 0 < i < |es| && es[i].id == id && (forall j :: 0 <= j < i ==> es[j].id != id)
        ensures Lookup(es, id) == es[i]
      {
        assert es[0].id != id;
        assert es[1..][i - 1] == es[i];
        assert forall j :: 0 <= j < i - 1 ==> es[1..][j] == es[j + 1];
      }
    }
  }

  /** An entry is due when it has a next time that is not after `now`. */
  predicate Due(e: Entry, now: DateTime) {
    e.next.Some? && !After(e.next.value, now)
  }

  /** The length of the longest prefix of due entries. */
  function DueCount(es: seq<Entry>, now: DateTime): (k: nat)
    ensures k <= |es|
    ensures forall i :: 0 <= i < k ==> Due(es[i], now)
    ensures k < |es| ==> !Due(es[k], now)
  {
    if |es| == 0 || !Due(es[0], now) then 0 else 1 + DueCount(es[1..], now)
  }

  /** On a sorted list the due prefix holds exactly the due entries. */
  lemma DuePrefixIsAllDue(es: seq<Entry>, now: DateTime)
    requires SortedByTime(es)
    ensures forall i :: 0 <= i < |es| ==> (i < DueCount(es, now) <==> Due(es[i], now))
  {
    var k := DueCount(es, now);
    forall i | k < i < |es| && Due(es[i], now)
      ensures false
    {
      assert !Less(es[i], es[k]);
      var x, y := es[k].next.value, es[i].next.value;
      BeforeTotal(x, y);
      if Before(now, x) && Before(x, y) {
        BeforeTrans(now, x, y);
      }
    }
  }

  /** The entry after a wake-up has started it. */
  ghost function Fired(e: Entry, now: DateTime): (f: Entry)
    requires e.schedule.Some? && Valid(now)
    ensures f.id == e.id && f.schedule == e.schedule && f.prev == e.next
    ensures f.next.Some? ==> Valid(f.next.value) && (Forward(e.schedule.value) ==> Before(now, f.next.value))
    ensures e.schedule.value.Constant? ==> f.next.Some?
  {
    e.(prev := e.next, next := NextOf(e.schedule.value, now))
  }

  /** The entry with its next time computed from `now`. */
  ghost function Rescheduled(e: Entry, now: DateTime): (f: Entry)
    requires e.schedule.Some? && Valid(now)
    ensures f.id == e.id && f.prev == e.prev && f.schedule == e.schedule
    ensures f.next.Some? ==> Valid(f.next.value) && (Forward(e.schedule.value) ==> Before(now, f.next.value))
    ensures e.schedule.value.Constant? ==> f.next.Some?
  {
    e.(next := NextOf(e.schedule.value, now))
  }

  /** The wrapped jobs of the entries, in order. */
  function WrappedJobs(es: seq<Entry>): (r: seq<Option<Job>>)
    ensures |r| == |es| && forall i :: 0 <= i < |es| ==> r[i] == es[i].wrappedJob
  {
    seq(|es|, i requires 0 <= i < |es| => es[i].wrappedJob)
  }

  /** The timer length chosen at cron.go:252-258: long when nothing is scheduled, else until the first entry. */
  function TimerDuration(es: seq<Entry>, now: DateTime): Duration
    requires Valid(now) && (|es| > 0 && es[0].next.Some? ==> Valid(es[0].next.value))
  {
    if |es| == 0 || es[0].next.None? then 100000 * Hour else Sub(es[0].next.value, now)
  }

  /** On a sorted list the timer runs until the soonest next time, or for 100000 hours when there is none. */
  lemma TimerIsSoonest(es: seq<Entry>, now: DateTime)
    requires SortedByTime(es) && Valid(now) && forall e | e in es :: e.next.Some? ==> Valid(e.next.value)
    ensures (forall e | e in es :: e.next.None?) ==> TimerDuration(es, now) == 100000 * Hour
    ensures (exists e | e in es :: e.next.Some?) ==>
              && es[0].next.Some?
              && TimerDuration(es, now) == Sub(es[0].next.value, now)
              && forall e | e in es && e.next.Some? :: !Before(e.next.value, es[0].next.value)
  {
    if exists e | e in es :: e.next.Some? {
      var e :| e in es && e.next.Some?;
      var i :| 0 <= i < |es| && es[i] == e;
      if i > 0 {
        SortedShape(es, 0, i);
      }
      forall e' | e' in es && e'.next.Some?
        ensures !Before(e'.next.value, es[0].next.value)
      {
        var j :| 0 <= j < |es| && es[j] == e';
        if j > 0 {
          SortedShape(es, 0, j);
        }
      }
    }
  }

  /** The first `i` entries of `es` were due and are fired in `r`; the rest are as they were. */
  ghost predicate FiredUpTo(r: seq<Entry>, es: seq<Entry>, i: int, now: DateTime)
    requires Valid(now) && forall k :: 0 <= k < |es| ==> es[k].schedule.Some?
  {
    && 0 <= i <= |r| == |es|
    && (forall k :: 0 <= k < i ==> Due(es[k], now) && r[k] == Fired(es[k], now))
    && (forall k :: i <= k < |r| ==> r[k] == es[k])
  }

  /** Firing the next due entry extends the fired prefix by one. */
  lemma FiredStep(r: seq<Entry>, es: seq<Entry>, i: int, now: DateTime, next: Option<DateTime>)
    requires Valid(now) && forall k :: 0 <= k < |es| ==> es[k].schedule.Some?
    requires FiredUpTo(r, es, i, now) && i < |r| && Due(r[i], now)
    requires next == NextOf(r[i].schedule.value, now)
    ensures FiredUpTo(r[i := r[i].(prev := r[i].next, next := next)], es, i + 1, now)
  {
  }

  /** Where the firing stops, the fired prefix is the due prefix. */
  lemma FiredAll(r: seq<Entry>, es: seq<Entry>, i: int, now: DateTime)
    requires Valid(now) && forall k :: 0 <= k < |es| ==> es[k].schedule.Some?
    requires FiredUpTo(r, es, i, now) && (i == |r| || !Due(r[i], now))
    ensures i == DueCount(es, now)
    ensures forall k :: 0 <= k < i ==> r[k] == Fired(es[k], now)
    ensures forall k :: i <= k < |es| ==> r[k] == es[k]
  {
  }
}
