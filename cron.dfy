/**
 * cron.go: the entry registry of a `Cron` and the sequential steps of its
 * scheduler loop. Each entry pairs a schedule with a job; the scheduler keeps
 * the entries sorted by their next activation (zero times last), sleeps until
 * the first of them, and on waking starts every entry that is due.
 *
 * Entries are values in the sequence `entries`; Go's `*Entry` pointers never
 * leave the `Cron` (snapshots copy the values), so updating the entry at an
 * index stands for updating through the pointer. Each event the scheduler loop
 * reacts to is one method, with the instant `now` as a parameter.
 */
module Scheduler {
  import opened Civil
  import opened Wrappers
  import opened JobChain
  import opened Entries

  /**
   * The loop of the timer case of cron.go `run`: from the front, every entry up
   * to the first whose next time is zero or after `now` is started (its wrapped
   * job joins `fired`) and rescheduled.
   */
  method FireDue(es: seq<Entry>, now: DateTime) returns (r: seq<Entry>, ghost fired: seq<Option<Job>>)
    requires Valid(now) && forall k :: 0 <= k < |es| ==> es[k].schedule.Some?
    ensures |r| == |es|
    ensures forall k :: 0 <= k < DueCount(es, now) ==> r[k] == Fired(es[k], now)
    ensures forall k :: DueCount(es, now) <= k < |es| ==> r[k] == es[k]
    ensures fired == WrappedJobs(es[..DueCount(es, now)])
  {
    r, fired := es, [];
    var i := 0;
    while i < |r|
      invariant FiredUpTo(r, es, i, now)
      invariant fired == WrappedJobs(es[..i])
      decreases |r| - i
    {
      var e := r[i];
      if e.next.None? || After(e.next.value, now) {
        break;
      }
      fired := fired + [e.wrappedJob];
      var next := ScheduleNext(e.schedule.value, now);
      FiredStep(r, es, i, now, next);
      r := r[i := e.(prev := e.next, next := next)];
      assert es[..i + 1] == es[..i] + [es[i]];
      i := i + 1;
    }
    FiredAll(r, es, i, now);
  }

  // ---------------------------------------------------------------------------
  // Cron

  /** cron.go `Cron`, without its channels, locks, logger, location and parser. */
  class Cron {
    var entries: seq<Entry>
    var chain: Chain<Job>
    var running: bool
    var nextID: EntryID
    /** The wrapped jobs handed to `startJob`, in order. */
    ghost var started: seq<Option<Job>>

    /** IDs are positive, at most `nextID` and distinct; every entry has a schedule and jobs. */
    ghost predicate Valid()
      reads this
    {
      && nextID >= 0
      && (forall i :: 0 <= i < |entries| ==> Registered(entries[i], nextID))
      && DistinctIds(entries)
    }

    /** cron.go `New`, with the chain the `WithChain` option would install (`NewChain()` by default). */
    constructor (wrappers: seq<Job -> Job>)
      ensures Valid()
      ensures entries == [] && chain == NewChain(wrappers) && !running && nextID == 0 && started == []
    {
      entries := [];
      chain := NewChain(wrappers);
      running := false;
      nextID := 0;
      started := [];
    }

    /**
     * cron.go `Cron.Schedule`: registers the job, wrapped by the chain, under a
     * new ID. While the scheduler runs, the new entry goes through the `add`
     * event, which computes its next time from `now` before appending it.
     */
    method Schedule(schedule: Schedule, cmd: Job, now: DateTime) returns (id: EntryID)
      requires Valid() && Civil.Valid(now)
      modifies this
      ensures Valid()
      ensures id == old(nextID) + 1 && nextID == id && id > 0
      ensures forall e | e in old(entries) :: e.id < id
      ensures entries == old(entries) + [Entry(id, Some(schedule), if running then NextOf(schedule, now) else None,
                                               None, Some(Compose(chain.wrappers, cmd)), Some(cmd))]
      ensures running == old(running) && chain == old(chain) && started == old(started)
    {
      nextID := nextID + 1;
      var wrapped;
      ghost var applied;
      wrapped, applied := chain.Then(cmd);
      var entry := Entry(nextID, Some(schedule), None, None, Some(wrapped), Some(cmd));
      if !running {
        entries := entries + [entry];
      } else {
        var next := ScheduleNext(schedule, now);
        entries := entries + [entry.(next := next)];
      }
      id := entry.id;
    }

    /** cron.go `entrySnapshot`: a copy of the entry values. */
    method EntrySnapshot() returns (r: seq<Entry>)
      ensures r == entries
    {
      var a := new Entry[|entries|](_ => ZeroEntry);
      for i := 0 to |entries|
        invariant forall k :: 0 <= k < i ==> a[k] == entries[k]
      {
        a[i] := entries[i];
      }
      r := a[..];
    }

    /** cron.go `Cron.Entries`: the snapshot (the scheduler loop answers a running cron with the same). */
    method Entries() returns (r: seq<Entry>)
      ensures |r| == |entries| && forall i :: 0 <= i < |r| ==> r[i] == entries[i]
    {
      r := EntrySnapshot();
    }

    /**
     * cron.go `Cron.Entry`: the first entry with the ID, or the zero entry. (Named
     * apart from the datatype `Entry`, whose constructor it would hide.)
     */
    method EntryFor(id: EntryID) returns (e: Entry)
      ensures e == Lookup(entries, id)
    {
      var all := Entries();
      assert all == entries;
      for i := 0 to |all|
        invariant Lookup(all[i..], id) == Lookup(all, id)
      {
        assert all[i..][1..] == all[i + 1..];
        if id == all[i].id {
          return all[i];
        }
      }
      e := ZeroEntry;
    }

    /** cron.go `removeEntry`: drops the entries with the ID, keeping the rest in order. */
    method RemoveEntry(id: EntryID)
      requires Valid()
      modifies this
      ensures Valid()
      ensures entries == Without(old(entries), id)
      ensures running == old(running) && nextID == old(nextID) && chain == old(chain) && started == old(started)
    {
      var kept: seq<Entry> := [];
      for i := 0 to |entries|
        invariant kept == Without(entries[..i], id)
      {
        assert entries[..i + 1][..i] == entries[..i];
        if entries[i].id != id {
          kept := kept + [entries[i]];
        }
      }
      assert entries[..|entries|] == entries;
      WithoutMeans(entries, id);
      WithoutDistinct(entries, id);
      entries := kept;
    }

    /** cron.go `Cron.Remove`: a running scheduler handles the `remove` event with the same `removeEntry`. */
    method Remove(id: EntryID)
      requires Valid()
      modifies this
      ensures Valid()
      ensures entries == Without(old(entries), id)
      ensures forall e :: e in entries <==> e in old(entries) && e.id != id
      ensures (forall e | e in old(entries) :: e.id != id) ==> entries == old(entries)
      ensures running == old(running) && nextID == old(nextID) && chain == old(chain) && started == old(started)
    {
      RemoveEntry(id);
      WithoutMeans(old(entries), id);
      if forall e | e in old(entries) :: e.id != id {
        WithoutUnknown(old(entries), id);
      }
    }

    /** The start of cron.go `run`: every entry's next time from `now`. */
    method StartUp(now: DateTime)
      requires Valid() && Civil.Valid(now)
      modifies this
      ensures Valid()
      ensures |entries| == |old(entries)|
      ensures forall i :: 0 <= i < |entries| ==> entries[i] == Rescheduled(old(entries)[i], now)
      ensures running == old(running) && nextID == old(nextID) && chain == old(chain) && started == old(started)
    {
      var es := entries;
      ghost var all := entries;
      assert forall k :: 0 <= k < |all| ==> Registered(all[k], nextID);
      for i := 0 to |es|
        invariant |es| == |all|
        invariant forall k :: 0 <= k < i ==> es[k] == Rescheduled(all[k], now)
        invariant forall k :: i <= k < |es| ==> es[k] == all[k]
        modifies {}
      {
        var e := es[i];
        var next := ScheduleNext(e.schedule.value, now);
        es := es[i := e.(next := next)];
      }
      KeepsRegistered(entries, es, nextID);
      entries := es;
    }

    /** cron.go `Cron.Start`: marks the cron running and begins the scheduler loop; a no-op when running. */
    method Start(now: DateTime)
      requires Valid() && Civil.Valid(now)
      modifies this
      ensures Valid() && running
      ensures old(running) ==> entries == old(entries)
      ensures !old(running) ==> |entries| == |old(entries)|
      ensures !old(running) ==> forall i :: 0 <= i < |entries| ==> entries[i] == Rescheduled(old(entries)[i], now)
      ensures nextID == old(nextID) && chain == old(chain) && started == old(started)
    {
      if running {
        return;
      }
      running := true;
      StartUp(now);
    }

    /** cron.go `Cron.Stop`: ends the scheduler loop; the entries stay as they are. */
    method Stop()
      requires Valid()
      modifies this
      ensures Valid() && !running
      ensures entries == old(entries) && nextID == old(nextID) && chain == old(chain) && started == old(started)
    {
      if running {
        running := false;
      }
    }

    /** The head of the scheduler loop (cron.go:249-258): sort the entries, then choose the timer. */
    method Arm(now: DateTime) returns (d: Duration)
      requires Valid() && Civil.Valid(now)
      modifies this
      ensures Valid() && SortedByTime(entries) && multiset(entries) == multiset(old(entries))
      ensures d == TimerDuration(entries, now)
      ensures running == old(running) && nextID == old(nextID) && chain == old(chain) && started == old(started)
    {
      SortByTimeSorted(entries);
      SortByTimeDistinct(entries);
      ghost var before := entries;
      entries := SortByTime(entries);
      forall i | 0 <= i < |entries|
        ensures Registered(entries[i], nextID)
      {
        assert entries[i] in multiset(before);
      }
      if |entries| == 0 || entries[0].next.None? {
        d := 100000 * Hour;
      } else {
        d := Sub(entries[0].next.value, now);
      }
    }

    /**
     * The timer case of cron.go `run`: starts every entry, from the front, until
     * the first one whose next time is zero or after `now`; a started entry's
     * previous time becomes its old next time and its next time is computed from
     * `now`.
     */
    method Wake(now: DateTime)
      requires Valid() && Civil.Valid(now)
      modifies this
      ensures Valid()
      ensures |entries| == |old(entries)|
      ensures var k := DueCount(old(entries), now);
              && (forall i :: 0 <= i < k ==> entries[i] == Fired(old(entries)[i], now))
              && (forall i :: k <= i < |entries| ==> entries[i] == old(entries)[i])
              && started == old(started) + WrappedJobs(old(entries)[..k])
      ensures running == old(running) && nextID == old(nextID) && chain == old(chain)
    {
      assert forall k :: 0 <= k < |entries| ==> Registered(entries[k], nextID);
      var es, fired := FireDue(entries, now);
      KeepsRegistered(entries, es, nextID);
      entries := es;
      started := started + fired;
    }
  }
}
