# A verified model of the cron scheduler core

This Dafny project models the sequential core of a Go cron library:

- **Calendar-field schedules.** `SpecSchedule.Next` and `dayMatches`: six bit masks (second, minute, hour, day of month, month, weekday), plus the wildcard bit 63, which records that a field was written `*`.
- **Fixed-interval schedules.** `Every` and `ConstantDelaySchedule.Next`.
- **The `Cron` registry.** Scheduling, removal, snapshots and lookup of entries, and the sequential steps of the scheduler loop: start-up, the add event, sorting by `byTime`, the timer choice and the wake-up pass.
- **Job wrapper chains.** `Chain.Then`.
- **The `Printf`-backed logger.** `formatString`, `formatTimes`, and the gating of `Info`/`Error`.

Modules and files:

| file | module | models |
|---|---|---|
| wrappers.dfy | `Wrappers` | `Option` |
| civil.dfy | `Civil` | instants as civil fields (year … nanosecond) in one fixed zone, proleptic Gregorian; Go's `time.Date`, `Add`, `AddDate`, `Truncate`, `Sub`, `Before`, `Weekday` |
| spec.dfy | `Spec` | masks, `bounds`, the star bit, `dayMatches`, what it means to match |
| spec_search.dfy | `SpecSearch` | the specification of `Next` (the earliest matching whole second within five years) and the lemmas behind its search |
| spec_next.dfy | `SpecNext` | `Next` itself: the five field loops, with the source's `goto WRAP` as a restart of the outer loop |
| constant_delay.dfy | `ConstantDelay` | `Every` and `Next` of the constant-delay schedule |
| chain.dfy | `JobChain` | `NewChain`, `Chain.Then` |
| entries.dfy | `Entries` | `Entry`, `Entry.Valid`, `byTime.Less` and a sort by it, removal and lookup by ID, the due prefix, the timer duration |
| cron.dfy | `Scheduler` | the `Cron` class: `New`, `Schedule`, `entrySnapshot`, `Entries`, `Entry`, `removeEntry`, `Remove`, `Start`, `Stop` and the scheduler loop's steps |
| logger.dfy | `Logging` | `formatString`, `formatTimes`, `printfLogger.Info`/`Error`, `PrintfLogger`, `VerbosePrintfLogger` |

How the source's entities are represented:

- **Masks.** A mask is the set of positions of its set bits. `Has(mask, v)` is Go's `1<<uint(v) & mask != 0`. No field value of a valid instant reaches 64, so Go's shift-by-64-yields-0 rule never applies.
- **Zero values.** Go's zero time is `None`. The zero `Entry` has ID 0 and no schedule or jobs.
- **Entries.** They are values in the sequence field `entries`. Go's `*Entry` pointers never leave the `Cron`, and a snapshot copies the values, so updating the value at an index stands for updating through the pointer.
- **Events.** Each event the scheduler loop reacts to is one method. It takes the current instant `now` as a parameter.
- **`SpecNext.Next`.** It is proved to return `Earliest(s, t0)`: the earliest whole second strictly after `t0` that satisfies every mask, provided that second's year is at most five after the year the search starts in. Otherwise it returns `None`, Go's zero time.

## Model

| member | source | states |
|---|---|---|
| Spec.DayMatches | spec.go:178-187 | no contract of its own: `DayMatchesEither`, `DayMatchesBoth`, `DayMatchesStarDow` and `DayMatchesStarDom` state what it decides |
| Spec.StarBitAboveBounds | spec.go:21-54 | every field's maximum lies below bit 63, so no field value of a valid instant, weekday included, is ever 63 |
| Spec.StarBitInvisible | spec.go:96-171 | setting the star bit in the month, hour, minute and second masks changes no match |
| Spec.DayMatchesEither | spec.go:178-187 | with no star bit in either day field, a day matches iff its day-of-month bit or its weekday bit is set |
| Spec.DayMatchesBoth | spec.go:178-185 | with the star bit in either day field, a day matches iff both its day-of-month bit and its weekday bit are set |
| Spec.DayMatchesStarDow | spec.go:183-184 | a weekday field written `*` leaves the decision to the day-of-month bit |
| Spec.DayMatchesStarDom | spec.go:183-184 | a day-of-month field written `*` leaves the decision to the weekday bit |
| SpecSearch.SearchStart | spec.go:80-81 | the search starts on a whole second strictly after `t` |
| SpecSearch.StartOps | spec.go:81 | adding one second minus the nanoseconds lands exactly on that first whole second |
| SpecSearch.StartIsFirstWholeSecond | spec.go:80-81 | a whole second is after `t` iff it is not before the search start, so no candidate is skipped |
| SpecSearch.Earliest | spec.go:56-57 | `Some` iff an earliest candidate exists within the horizon, and it is that candidate |
| SpecSearch.EarliestMeans | spec.go:56-92 | a result is a valid whole second strictly after `t`, satisfies every mask, has year at most the start year + 5, and no candidate precedes it |
| SpecSearch.EarliestUnique | spec.go:56-57 | there is at most one earliest candidate |
| SpecSearch.NextStart | spec.go:96-171 | stepping a field (month, day, hour, minute, second) by one with carry gives a valid instant strictly after `t`, with every finer field at its minimum |
| SpecSearch.MonthOps | spec.go:98-103 | resetting to the first of the month at midnight and adding one month reaches the start of the next month; without the reset too, once already reset |
| SpecSearch.DayOps | spec.go:117-121 | resetting to midnight and adding one day reaches the start of the next day, across month and year ends |
| SpecSearch.HourOps | spec.go:138-142 | resetting minutes, seconds and nanoseconds and adding one hour reaches the start of the next hour |
| SpecSearch.MinuteOps | spec.go:150-154 | truncating to the minute and adding one minute reaches the start of the next minute |
| SpecSearch.SecondOps | spec.go:162-166 | truncating to the second and adding one second reaches the start of the next second |
| SpecSearch.PhaseStep | spec.go:96-171 | stepping a failing field keeps every earlier whole second unmatched; when there is no carry, the coarser fields still match and the field grew by one |
| SpecSearch.NoneCase | spec.go:86-92 | once the search passes the year limit, no candidate lies within the horizon and the answer is the zero time |
| SpecSearch.SomeCase | spec.go:161-173 | when all five field loops pass, the instant reached is the earliest candidate |
| SpecSearch.HalfPastMatches | spec.go:96-171 | minute `{30}`, second `{0}`, all else `*` matches exactly the instants at hh:30:00 |
| SpecSearch.HalfPastFromTenPast | spec.go:149-171 | from 02:10:17 that schedule gives 02:30:00 the same day |
| SpecSearch.HalfPastFromQuarterTo | spec.go:137-171 | from 02:45:00 it gives 03:30:00 |
| SpecSearch.FebruaryThirtiethNever | spec.go:86-92 | month `{2}`, day `{30}` has no candidate at all, so the answer is the zero time |
| SpecNext.Next | spec.go:56-174 | the result is `Earliest(s, t0)`; on the zero time nothing within the horizon matches |
| SpecNext.Pass | spec.go:89-171 | one pass from `WRAP`; on a restart the position has moved strictly forward, otherwise every mask is satisfied |
| SpecNext.MonthPhase | spec.go:94-109 | the month loop leaves a matching month or reports the carry into January; nothing skipped matches |
| SpecNext.DayPhase | spec.go:111-135 | the day loop leaves a matching day or reports the carry into the 1st; nothing skipped matches |
| SpecNext.HourPhase | spec.go:137-147 | the hour loop leaves a matching hour or reports the carry into hour 0; nothing skipped matches |
| SpecNext.MinutePhase | spec.go:149-159 | the minute loop leaves a matching minute or reports the carry into minute 0; nothing skipped matches |
| SpecNext.SecondPhase | spec.go:161-171 | the second loop leaves a matching second or reports the carry into second 0; nothing skipped matches |
| ConstantDelay.Every | constant_delay.go:14-20 | the delay is a whole number of seconds and at least one; below one second it is one second; otherwise it is the duration truncated, never rounded up |
| ConstantDelay.EveryKeepsWholeSeconds | constant_delay.go:18-20 | a whole number of seconds, at least one, is kept as it is |
| ConstantDelay.EveryHourHalfTen | constant_delay.go:18-20 | 1h30m10s stays 5410 seconds |
| ConstantDelay.EveryIdempotent | constant_delay.go:14-20 | `Every(Every(d).delay) == Every(d)` |
| ConstantDelay.Next | constant_delay.go:25-27 | a valid instant; `NextIsTruncatedPlusDelay`, `NextAfter`, `NextOnWholeSecondAfter` and `NextElapsed` state which one |
| ConstantDelay.NextIsTruncatedPlusDelay | constant_delay.go:25-26 | for a delay of at least one second, `Next(t)` is `t` with its nanoseconds dropped, plus the delay |
| ConstantDelay.NextAfter | constant_delay.go:25-26 | with a delay of at least one second, `Next(t)` lies strictly after `t` |
| ConstantDelay.NextOnWholeSecondAfter | constant_delay.go:23-26 | for a schedule built by `Every`, `Next(t)` lies on a whole second strictly after `t` |
| ConstantDelay.NextElapsed | constant_delay.go:25-26 | on a whole second, `Next(t) - t` is exactly the delay, whatever the job did |
| JobChain.NewChain | chain.go:22-24 | the chain holds the wrappers in the order given |
| JobChain.Chain.Then | chain.go:35-40 | the result is the right fold `ws[0](ws[1](… ws[n-1](j)))`; the wrappers are applied from the last index down to the first |
| JobChain.CountdownIsEachIndexOnce | chain.go:36-37 | every wrapper is applied exactly once |
| JobChain.EmptyChainIsIdentity | chain.go:22-24 | an empty chain leaves the job as it is |
| JobChain.ThreeWrappers | chain.go:26-34 | `NewChain(m1, m2, m3).Then(job)` is `m1(m2(m3(job)))` |
| JobChain.ComposeAppend | chain.go:35-40 | wrapping with `a + b` is wrapping with `b`, then with `a` |
| Entries.Entry.Valid | cron.go:72-73 | no contract of its own: `ZeroEntryNotValid` states that it holds exactly for a non-zero ID |
| Entries.ZeroEntryNotValid | cron.go:72-73 | the zero entry is not valid; an entry is valid iff its ID is not 0 |
| Entries.NextOf | cron.go:40-45 | what `Schedule.Next` answers for each kind of schedule: a valid instant, strictly after `now` for a calendar schedule and for a delay of at least one second; a constant delay always has one |
| Entries.ScheduleNext | cron.go:243 | the call `Schedule.Next(now)` yields `NextOf`: a valid instant, strictly after `now` for a calendar schedule and for a delay of at least one second |
| Entries.Less | cron.go:81-92 | no contract of its own: `LessIsStrictWeakOrder` and `NotLessTrans` state its cases and that it is a strict weak order |
| Entries.LessIsStrictWeakOrder | cron.go:81-92 | `byTime.Less` is irreflexive, asymmetric and transitive, and its equivalence is transitive; a zero time is less than nothing; a non-zero time is less than a zero one; otherwise it is `Before` |
| Entries.NotLessTrans | cron.go:81-92 | not-less is transitive |
| Entries.SortedShape | cron.go:75-77 | in a sorted list every entry with a next time comes before every zero-time entry, and next times ascend |
| Entries.Insert | cron.go:249 | inserting adds exactly the one entry |
| Entries.SortByTime | cron.go:249 | the sorted list is a permutation of the old one |
| Entries.SortByTimeSorted | cron.go:249 | the sorted list is in `byTime` order |
| Entries.SortByTimeDistinct | cron.go:249 | sorting keeps the IDs distinct |
| Entries.WithoutMeans | cron.go:345-353 | removal keeps exactly the entries whose ID differs |
| Entries.WithoutUnknown | cron.go:345-353 | an ID that no entry has leaves the list unchanged |
| Entries.WithoutDistinct | cron.go:345-353 | removal keeps the IDs distinct |
| Entries.WithoutOne | cron.go:345-353 | with distinct IDs, removing a present ID drops that one entry and keeps the others in order |
| Entries.LookupMeans | cron.go:192-199 | lookup yields the first entry with the ID, else the zero entry |
| Entries.DueCount | cron.go:267-270 | the length of the longest prefix whose next times are non-zero and not after `now` |
| Entries.DuePrefixIsAllDue | cron.go:267-275 | on a sorted list, that prefix holds exactly the due entries |
| Entries.TimerDuration | cron.go:252-258 | no contract of its own: `TimerIsSoonest` and `Scheduler.Cron.Arm` state it |
| Entries.Fired | cron.go:272-273 | a fired entry keeps its ID and schedule, its previous time is its old next time, and its new next time is a valid instant strictly after `now` (for a calendar schedule or a delay of at least one second), never zero for a constant delay |
| Entries.Rescheduled | cron.go:243 | a rescheduled entry keeps its ID, schedule and previous time, and its next time is a valid instant strictly after `now` (for a calendar schedule or a delay of at least one second), never zero for a constant delay |
| Entries.TimerIsSoonest | cron.go:252-258 | on a sorted list: with no next time at all, the timer is 100000 hours; otherwise the head has a next time, the timer is `Sub(head.next, now)`, and no entry's next time is before the head's |
| Scheduler.FireDue | cron.go:267-275 | exactly the due prefix is started, in order, and rescheduled; every entry from the first one not due is untouched |
| Scheduler.Cron.constructor | cron.go:111-129 | no entries, not running, `nextID` 0, the given chain |
| Scheduler.Cron.Schedule | cron.go:156-172 | `nextID` grows by one and is the new ID, above every existing ID; the new entry, wrapped by the chain, is appended; the others are unchanged; a running cron computes its next time from `now` (cron.go:279-281) |
| Scheduler.Cron.EntrySnapshot | cron.go:337-343 | a same-length, same-order copy of the entries |
| Scheduler.Cron.Entries | cron.go:175-184 | the snapshot of the entries |
| Scheduler.Cron.EntryFor | cron.go:192-199 | the first entry with the ID, else the zero entry |
| Scheduler.Cron.RemoveEntry | cron.go:345-353 | the entries become those whose ID differs, in order |
| Scheduler.Cron.Remove | cron.go:202-210 | the entries become those whose ID differs, in their old order: exactly the entries with the ID disappear, and an unknown ID changes nothing |
| Scheduler.Cron.StartUp | cron.go:241-245 | every entry's next time becomes `Schedule.Next(now)`; nothing else changes |
| Scheduler.Cron.Start | cron.go:213-221 | a stopped cron becomes running and runs the start-up; a running one is left alone |
| Scheduler.Cron.Stop | cron.go:321-327 | the cron is no longer running; the entries are kept and the registry invariant holds |
| Scheduler.Cron.Arm | cron.go:247-258 | the entries are sorted by `byTime` and permuted, and the timer length is `TimerDuration` |
| Scheduler.Cron.Wake | cron.go:262-275 | the due prefix is fired, with previous time set to the old next time and next time to `Schedule.Next(now)`; the rest are unchanged; their wrapped jobs are started in order |
| Logging.FormatString | logger.go:60-73 | `"%s"`, then for n > 0 `", "` and n/2 copies of `"%v=%v"` joined by `", "` |
| Logging.LayoutOfNone | logger.go:60-65 | `formatString(0) == "%s"` |
| Logging.LayoutVerbs | logger.go:60-73 | the format holds 1 + 2·(n/2) `%` verbs |
| Logging.LayoutMatchesArguments | logger.go:46-48 | for even n the verbs equal the arguments (the message plus n items); for odd n the last item has none |
| Logging.FormatTimes | logger.go:75-85 | the items are rendered one by one, in order |
| Logging.RenderedElementwise | logger.go:75-85 | length and order are kept; exactly the time values become their RFC 3339 text; all other values are unchanged |
| Logging.Printer.Printf | logger.go:39 | the sink records one (format, arguments) call |
| Logging.Logger.Info | logger.go:43-50 | a non-verbose logger emits nothing; a verbose one emits one record: the format for the item count, the message, then the rendered items |
| Logging.Logger.Error | logger.go:52-57 | always one record, with format `formatString(len + 2)`, then the message, `"error"`, the error and the rendered items |
| Logging.PrintfLogger | logger.go:28-30 | `logInfo` is false |
| Logging.VerbosePrintfLogger | logger.go:34-36 | `logInfo` is true |
| Logging.LayoutOfOnePair | logger.go:60-73 | one key/value pair gives the format `"%s, %v=%v"` |
| Civil.Date | spec.go:101 | Go's `time.Date`: always a valid instant, normalising out-of-range fields; `DateOfValid`, `DateInMonth` and `DateNextDay` state how |
| Civil.DateOfValid | spec.go:101 | `Date` of fields already in range is that instant unchanged |
| Civil.DateNextDay | spec.go:119-121 | `Date` one day past a real date is the next day of the month, or the first of the next month or year |
| Civil.AddNanos | spec.go:81 | Go's `Add`: a valid instant exactly `n` nanoseconds later |
| Civil.AddDate | spec.go:103 | Go's `AddDate`: a valid instant; `MonthOps` and `DayOps` state its effect at the search's resets |
| Civil.TruncateMinute | spec.go:152 | Go's `Truncate(time.Minute)`: the start of the minute |
| Civil.TruncateSecond | spec.go:164 | Go's `Truncate(time.Second)`: `t` with its nanoseconds cleared |
| Civil.Weekday | spec.go:181 | the weekday is in 0..6; with `UnixEpochIsThursday` and `WeekdayNextDay` this fixes it as the day of the week of every date |
| Civil.UnixEpochIsThursday | spec.go:181 | 1970-01-01 is weekday 4 (Thursday), as in Go |
| Civil.WeekdayNextDay | spec.go:181 | the day after a real date has the next weekday, modulo 7 |
| Civil.Sub | cron.go:257 | Go's `Sub`: positive iff `b` is before `a`, zero iff they are equal, negative iff `a` is before `b` |
| Civil.SubAddNanos | cron.go:257 | Go's `Sub` undoes `Add` for a duration in the int64 range |

## Left out

- Goroutines, channels, `select`, `time.Timer`, `sync.Mutex` and `sync.WaitGroup`. The model does not capture: `startJob` running the job (recorded instead in the ghost `started`), `Stop`'s context that waits for running jobs, or the hand-offs by which `Schedule`, `Entries` and `Remove` reach a running scheduler. Each event is one sequential method.
- `Run`: it has the same effect on the state as `Start`, and differs only in blocking the caller.
- The snapshot event of a running scheduler is not a separate step: it answers with the same `entrySnapshot`.
- The scheduler loop's `Info` logging calls ("start", "schedule", "wake", "run", "added", "removed", "stop") are not modelled.
- Time zones and daylight saving time:
  - the conversions into the schedule's `Location`, and back (spec.go:71-78, 173);
  - `c.location` and the `In` calls of cron.go;
  - the midnight correction of the day loop (spec.go:122-130). In a fixed-offset zone it cannot fire, because the hour is 0 after the reset.
- Go truncates on the absolute time, not on the civil fields. It agrees with the civil truncation here only for zone offsets of whole minutes.
- `time2.Now`: the current instant is the parameter `now`.
- `New`'s options (option.go) are not modelled. The constructor takes the wrappers the `WithChain` option would install; `NewChain()` is the default.
- The schedule parser and `AddFunc`/`AddJob`, which only delegate to it. `FuncJob` is not modelled.
- Schedules other than the library's own two kinds. A nil schedule is not modelled; only the zero entry has none.
- `Recover`, `DelayIfStillRunning` and `SkipIfStillRunning` of chain.go: they rest on panics, locks and wall-clock timing.
- `DefaultLogger` and `DiscardLogger`: they only write to standard output or discard.
- Go's `time.Format`: the RFC 3339 rendering is a function parameter of `FormatTimes`, `Info` and `Error`.
- Logged values: only four kinds are modelled (strings, integers, times and errors).
- Entries.SortByTime: Go's `sort.Sort` is replaced by an insertion sort. Only that its result is sorted and a permutation is used, so the order it picks among entries with equal times is not part of the model.
- Scheduler.Cron.Schedule: `EntryID` is an unbounded integer, so the wrap-around of `nextID` after 2^63 - 1 entries is not modelled.
- Civil.AddNanos: instants are unbounded civil fields, so Go's limits on the representable years are not modelled. Durations are checked against the int64 range only where the source does arithmetic on them (`ConstantDelay.Wrap64`, `Civil.Sub`).
- SpecNext.Next: written as five phase methods called from one restartable pass. The loop conditions, resets, steps and carry tests are each as in the source.
