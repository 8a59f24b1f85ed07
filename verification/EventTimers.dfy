/** Timer events (events/events_timer.c) and the poll timeout computed from them (events/events_network.c). */
module EventTimers {
  import opened Machine
  import PtrHeap
  import opened TQ = TimerQueue

  type Event = nat

  /** A timeval with its microseconds in range. */
  predicate Normal(t: Timeval) {
    0 <= t.usec < 1000000
  }

  function Micros(t: Timeval): int {
    t.sec * 1000000 + t.usec
  }

  lemma TvCmpMicros(a: Timeval, b: Timeval)
    requires Normal(a) && Normal(b)
    ensures TvCmp(a, b) <= 0 <==> Micros(a) <= Micros(b)
    ensures TvCmp(a, b) > 0 <==> Micros(a) > Micros(b)
  {
  }

  /** gettimeout(tv, tdelta): the clock reading now plus tdelta. */
  function TimeoutAt(now: Timeval, delta: Timeval): Timeval {
    var sec, usec := now.sec + delta.sec, now.usec + delta.usec;
    if usec >= 1000000 then Timeval(sec + 1, usec - 1000000) else Timeval(sec, usec)
  }

  /** For normal intervals this is addition. */
  lemma TimeoutAdds(now: Timeval, delta: Timeval)
    requires Normal(now) && Normal(delta)
    ensures Normal(TimeoutAt(now, delta)) && Micros(TimeoutAt(now, delta)) == Micros(now) + Micros(delta)
  {
  }

  /** A timer with a normal interval is due when its interval has passed since its start. */
  lemma DueMicros(started: Timeval, orig: Timeval, now: Timeval)
    requires Normal(started) && Normal(orig) && Normal(now)
    ensures TvCmp(TimeoutAt(started, orig), now) <= 0 <==> Micros(started) + Micros(orig) <= Micros(now)
  {
    TimeoutAdds(started, orig);
    TvCmpMicros(TimeoutAt(started, orig), now);
  }

  /** Whatever the interval, a later start makes a timer due no earlier. */
  lemma LaterStart(earlier: Timeval, later: Timeval, orig: Timeval)
    requires Normal(earlier) && Normal(later) && TvCmp(earlier, later) <= 0
    ensures TvCmp(TimeoutAt(earlier, orig), TimeoutAt(later, orig)) <= 0
  {
  }

  /** The arithmetic of events_timer_min for the least timer tv. */
  function Remaining(tv: Timeval, now: Timeval): (t: Timeval)
    ensures Normal(tv) && Normal(now) ==> Normal(t)
    ensures Normal(tv) && Normal(now) ==> Micros(t) == if Micros(now) > Micros(tv) then 0 else Micros(tv) - Micros(now)
  {
    if now.sec > tv.sec || (now.sec == tv.sec && now.usec > tv.usec) then Timeval(0, 0)
    else if tv.usec < now.usec then Timeval(tv.sec - now.sec - 1, tv.usec - now.usec + 1000000)
    else Timeval(tv.sec - now.sec, tv.usec - now.usec)
  }

  /** The timeout argument of poll(2): milliseconds, rounded up, or -1 to wait forever. */
  function PollTimeout(tv: Option<Timeval>): int {
    if tv.None? then -1
    else if tv.value.sec >= INT_MAX / 1000 then INT_MAX
    else tv.value.sec * 1000 + (tv.value.usec + 999) / 1000
  }

  /** The timeout fits an int.  Unless it is capped, it is never shorter than the time to wait and less
      than a millisecond longer; when it is capped, it is shorter exactly if more than INT_MAX ms remain. */
  lemma PollTimeoutBounds(tv: Timeval)
    requires Normal(tv) && tv.sec >= 0
    ensures 0 <= PollTimeout(Some(tv)) <= INT_MAX
    ensures tv.sec < INT_MAX / 1000 ==> Micros(tv) <= 1000 * PollTimeout(Some(tv)) < Micros(tv) + 1000
    ensures tv.sec >= INT_MAX / 1000 ==> (1000 * PollTimeout(Some(tv)) < Micros(tv) <==> Micros(tv) > 1000 * INT_MAX)
    ensures tv.sec >= INT_MAX / 1000 ==> PollTimeout(Some(tv)) == INT_MAX
    ensures PollTimeout(Some(tv)) == 0 <==> Micros(tv) == 0
  {
    var ms := (tv.usec + 999) / 1000;
    assert 1000 * ms <= tv.usec + 999 < 1000 * ms + 1000;
  }

  datatype Timer = Timer(event: Event, cookie: TimerRec, orig: Timeval)

  /** Timer records and queue records point at each other. */
  ghost predicate Linked(timers: map<nat, Timer>, records: set<TimerRec>) {
    && (forall id :: id in timers ==> timers[id].cookie in records && timers[id].cookie.ptr == id)
    && (forall r :: r in records ==> r.ptr in timers && timers[r.ptr].cookie == r)
  }

  /** A timer that was started at a clock reading, and is due its interval later. */
  ghost predicate OnTime(start: Timeval, orig: Timeval, due: Timeval, clock: Timeval) {
    Normal(start) && TvCmp(start, clock) <= 0 && due == TimeoutAt(start, orig)
  }

  ghost predicate Scheduled(timers: map<nat, Timer>, started: map<nat, Timeval>, due: map<nat, Timeval>, clock: Timeval) {
    && started.Keys == timers.Keys == due.Keys
    && forall id {:trigger OnTime(started[id], timers[id].orig, due[id], clock)} ::
         id in timers ==> OnTime(started[id], timers[id].orig, due[id], clock)
  }

  /** Every record holds the time at which its timer is due, except maybe one. */
  ghost predicate HeldBut(records: set<TimerRec>, due: map<nat, Timeval>, but: int)
    reads records
  {
    forall r :: r in records && r.ptr != but ==> r.ptr in due && r.key == due[r.ptr]
  }

  /** No timer is due before this one. */
  ghost predicate First(due: map<nat, Timeval>, id: nat) {
    id in due && forall x :: x in due ==> TvCmp(due[id], due[x]) <= 0
  }

  /** No timer is due yet. */
  ghost predicate NoneDue(due: map<nat, Timeval>, now: Timeval) {
    forall x :: x in due ==> TvCmp(due[x], now) > 0
  }

  lemma ScheduledLater(timers: map<nat, Timer>, started: map<nat, Timeval>, due: map<nat, Timeval>, clock: Timeval, now: Timeval)
    requires Scheduled(timers, started, due, clock) && TvCmp(clock, now) <= 0
    ensures Scheduled(timers, started, due, now)
  {
    forall id | id in timers
      ensures OnTime(started[id], timers[id].orig, due[id], now)
    {
      assert OnTime(started[id], timers[id].orig, due[id], clock);
    }
  }

  lemma ScheduledAdd(timers: map<nat, Timer>, started: map<nat, Timeval>, due: map<nat, Timeval>, clock: Timeval, id: nat, t: Timer)
    requires Scheduled(timers, started, due, clock) && Normal(clock)
    ensures Scheduled(timers[id := t], started[id := clock], due[id := TimeoutAt(clock, t.orig)], clock)
  {
    var timers', started', due' := timers[id := t], started[id := clock], due[id := TimeoutAt(clock, t.orig)];
    forall x | x in timers'
      ensures OnTime(started'[x], timers'[x].orig, due'[x], clock)
    {
      assert x != id ==> OnTime(started[x], timers[x].orig, due[x], clock);
    }
  }

  lemma ScheduledRemove(timers: map<nat, Timer>, started: map<nat, Timeval>, due: map<nat, Timeval>, clock: Timeval, id: nat)
    requires Scheduled(timers, started, due, clock)
    ensures Scheduled(timers - {id}, started - {id}, due - {id}, clock)
  {
    var timers', started', due' := timers - {id}, started - {id}, due - {id};
    forall x | x in timers'
      ensures OnTime(started'[x], timers'[x].orig, due'[x], clock)
    {
      assert OnTime(started[x], timers[x].orig, due[x], clock);
    }
  }

  lemma LinkedAdd(timers: map<nat, Timer>, records: set<TimerRec>, id: nat, t: Timer)
    requires Linked(timers, records) && id !in timers && t.cookie !in records && t.cookie.ptr == id
    ensures Linked(timers[id := t], records + {t.cookie})
  {
  }

  lemma LinkedRemove(timers: map<nat, Timer>, records: set<TimerRec>, id: nat)
    requires Linked(timers, records) && id in timers
    ensures Linked(timers - {id}, records - {timers[id].cookie})
  {
  }

  /** No two timers share a record. */
  lemma OwnRecord(timers: map<nat, Timer>, records: set<TimerRec>, id: nat)
    requires Linked(timers, records) && id in timers
    ensures forall x :: x in timers && x != id ==> timers[x].cookie != timers[id].cookie
  {
  }

  class EventTimers {
    const Q: TQ.TimerQueue
    var timers: map<nat, Timer>
    ghost var started: map<nat, Timeval>  // when each timer was registered or last reset
    ghost var due: map<nat, Timeval>      // when each timer is due
    var clock: Timeval                    // the last clock reading, for callers that take another

    ghost predicate Valid()
      reads this, Q, Q.H, Q.H.elems, Q.Records()
    {
      Q.Valid() && Booked()
    }

    /** The timers and the records of the queue belong together. */
    ghost predicate Booked()
      reads this, Q, Q.H, Q.Records()
    {
      && Normal(clock) && Linked(timers, Q.Records())
      && Scheduled(timers, started, due, clock) && HeldBut(Q.Records(), due, -1)
    }

    /** A reading of a monotonic clock. */
    predicate Reading(now: Timeval)
      reads this
    {
      Normal(now) && TvCmp(clock, now) <= 0
    }

    constructor (now: Timeval)
      requires Normal(now)
      ensures Valid() && timers == map[] && clock == now && fresh(Q) && fresh(Q.H) && Q.Records() == {}
    {
      Q := new TQ.TimerQueue();
      timers, started, due, clock := map[], map[], map[], now;
    }

    /** Note a clock reading. */
    method Tick(now: Timeval)
      requires Booked() && Reading(now)
      modifies this`clock
      ensures Booked() && clock == now
    {
      ScheduledLater(timers, started, due, clock, now);
      clock := now;
    }

    /** events_timer_register(func, cookie, timeo); id is the identity of the new timer record. */
    method Register(event: Event, id: nat, timeo: Timeval, now: Timeval, allocTimer: bool, allocQueue: bool)
      returns (ok: bool)
      requires Valid() && Reading(now) && id !in timers
      modifies this`clock, this`timers, this`started, this`due, Q.H, Q.Records()`rc
      ensures Valid() && clock == now && ok == (allocTimer && allocQueue)
      ensures ok ==> id in timers && timers == old(timers)[id := Timer(event, timers[id].cookie, timeo)] && started == old(started)[id := now]
      ensures ok ==> fresh(timers[id].cookie) && Q.Records() == old(Q.Records()) + {timers[id].cookie}
      ensures !ok ==> timers == old(timers) && started == old(started) && Q.Records() == old(Q.Records())
    {
      Tick(now);
      if !allocTimer {
        return false;
      }
      var r := Enqueue(TimeoutAt(now, timeo), id, allocQueue);
      if r == null {
        return false;
      }
      Remember(id, Timer(event, r, timeo), old(Q.Records()));
      return true;
    }

    /** Queue a record for a new timer; the timers there are keep theirs. */
    method Enqueue(tv: Timeval, id: nat, alloc: bool) returns (r: PtrHeap.Rec?<Timeval>)
      requires Valid()
      modifies Q.H, Q.Records()`rc
      ensures Q.Valid() && HeldBut(old(Q.Records()), due, -1) && (r == null <==> !alloc)
      ensures r == null ==> Q.Records() == old(Q.Records())
      ensures r != null ==> fresh(r) && r.key == tv && r.ptr == id && Q.Records() == old(Q.Records()) + {r}
    {
      r := Q.Add(tv, id, alloc, alloc);
    }

    /** Record a timer that has just been queued. */
    method Remember(id: nat, t: Timer, ghost records: set<TimerRec>)
      requires Normal(clock) && id !in timers && t.cookie !in records && Q.Records() == records + {t.cookie}
      requires Linked(timers, records) && Scheduled(timers, started, due, clock) && HeldBut(records, due, -1)
      requires t.cookie.ptr == id && t.cookie.key == TimeoutAt(clock, t.orig)
      modifies this`timers, this`started, this`due
      ensures Booked() && timers == old(timers)[id := t] && started == old(started)[id := clock]
    {
      LinkedAdd(timers, records, id, t);
      ScheduledAdd(timers, started, due, clock, id, t);
      timers, started, due := timers[id := t], started[id := clock], due[id := TimeoutAt(clock, t.orig)];
    }

    /** Forget a timer whose queue record has been removed. */
    method Forget(id: nat, ghost records: set<TimerRec>)
      requires Normal(clock) && id in timers && Q.Records() == records - {timers[id].cookie}
      requires Linked(timers, records) && Scheduled(timers, started, due, clock) && HeldBut(Q.Records(), due, -1)
      modifies this`timers, this`started, this`due
      ensures Booked() && timers == old(timers) - {id} && started == old(started) - {id} && due == old(due) - {id}
    {
      LinkedRemove(timers, records, id);
      ScheduledRemove(timers, started, due, clock, id);
      timers, started, due := timers - {id}, started - {id}, due - {id};
    }

    /** events_timer_cancel(cookie) */
    method Cancel(id: nat)
      requires Valid() && id in timers
      modifies this`timers, this`started, this`due, Q.H, Q.Records()`rc
      ensures Valid() && timers == old(timers) - {id} && started == old(started) - {id} && due == old(due) - {id}
      ensures Q.Records() == old(Q.Records() - {timers[id].cookie})
    {
      Q.Delete(timers[id].cookie);
      Forget(id, old(Q.Records()));
    }

    /** events_timer_reset(cookie); the new time is never before the old one. */
    method Reset(id: nat, now: Timeval)
      requires Valid() && Reading(now) && id in timers
      modifies this`clock, this`started, this`due, Q.H, Q.Records()`rc, timers[id].cookie`key
      ensures Valid() && clock == now && started == old(started)[id := now] && Q.Records() == old(Q.Records())
    {
      var tv := TimeoutAt(now, timers[id].orig);
      assert OnTime(started[id], timers[id].orig, due[id], clock);
      LaterStart(started[id], now, timers[id].orig);
      OwnRecord(timers, Q.Records(), id);
      Q.Increase(timers[id].cookie, tv);
      Restart(id, now);
    }

    /** A timer whose record has its new time starts anew. */
    method Restart(id: nat, now: Timeval)
      requires Reading(now) && Linked(timers, Q.Records()) && Scheduled(timers, started, due, clock)
      requires HeldBut(Q.Records(), due, id) && id in timers && timers[id].cookie.key == TimeoutAt(now, timers[id].orig)
      modifies this`clock, this`started, this`due
      ensures Booked() && clock == now && started == old(started)[id := now]
    {
      ScheduledLater(timers, started, due, clock, now);
      ScheduledAdd(timers, started, due, now, id, timers[id]);
      assert timers[id := timers[id]] == timers;
      clock, started, due := now, started[id := now], due[id := timers[id].cookie.key];
    }

    /** events_timer_min(timeo): the time until the first timer is due, or nothing if there is no timer. */
    method Min(now: Timeval) returns (tv: Option<Timeval>)
      requires Valid() && Reading(now)
      ensures tv.None? <==> timers == map[]
      ensures tv.Some? ==> exists id :: First(due, id) && tv.value == Remaining(due[id], now)
    {
      var r := Q.GetMin();
      if r == null {
        assert forall id :: id !in timers;
        return None;
      }
      tv := Some(Remaining(r.key, now));
      assert First(due, r.ptr);
    }

    /** events_timer_get(r): the first timer, if it is due, which is then deleted; none that is due is withheld. */
    method Get(now: Timeval) returns (event: Option<Event>, ghost id: nat)
      requires Valid() && Reading(now)
      modifies this, Q.H, Q.Records()`rc
      ensures Valid() && clock == now
      ensures event.None? ==> timers == old(timers) && started == old(started) && due == old(due) && NoneDue(due, now) && Q.Records() == old(Q.Records())
      ensures event.Some? ==>
        && First(old(due), id) && event.value == old(timers)[id].event && TvCmp(old(due)[id], now) <= 0
        && timers == old(timers) - {id} && started == old(started) - {id} && due == old(due) - {id}
        && Q.Records() == old(Q.Records() - {timers[id].cookie})
    {
      Tick(now);
      event, id := TakeFirst(now);
    }

    /** Take the first timer out, if it is due. */
    method TakeFirst(now: Timeval) returns (event: Option<Event>, ghost id: nat)
      requires Valid()
      modifies this`timers, this`started, this`due, Q.H, Q.Records()`rc
      ensures Valid()
      ensures event.None? ==> timers == old(timers) && started == old(started) && due == old(due) && NoneDue(due, now) && Q.Records() == old(Q.Records())
      ensures event.Some? ==>
        && First(old(due), id) && event.value == old(timers)[id].event && TvCmp(old(due)[id], now) <= 0
        && timers == old(timers) - {id} && started == old(started) - {id} && due == old(due) - {id}
        && Q.Records() == old(Q.Records() - {timers[id].cookie})
    {
      var r := TakeDue(now);
      if r == null {
        return None, 0;
      }
      event, id := Some(timers[r.ptr].event), r.ptr;
      ForgetTaken(r, old(Q.Records()));
    }

    method ForgetTaken(r: TimerRec, ghost records: set<TimerRec>)
      requires Q.Valid() && Normal(clock) && r.ptr in timers && timers[r.ptr].cookie == r && Q.Records() == records - {r}
      requires Linked(timers, records) && Scheduled(timers, started, due, clock) && HeldBut(Q.Records(), due, -1)
      modifies this`timers, this`started, this`due
      ensures Valid() && timers == old(timers) - {r.ptr} && started == old(started) - {r.ptr} && due == old(due) - {r.ptr}
    {
      Forget(r.ptr, records);
    }

    /** Remove the record of a timer that is due from the queue, leaving the timer itself. */
    method TakeDue(now: Timeval) returns (r: PtrHeap.Rec?<Timeval>)
      requires Valid()
      modifies Q.H, Q.Records()`rc
      ensures Q.Valid() && HeldBut(Q.Records(), due, -1)
      ensures r == null ==> Q.Records() == old(Q.Records()) && NoneDue(due, now)
      ensures r != null ==>
        && r in old(Q.Records()) && Q.Records() == old(Q.Records()) - {r}
        && First(due, r.ptr) && TvCmp(due[r.ptr], now) <= 0 && timers[r.ptr].cookie == r
    {
      r := Q.GetPtr(now);
    }
  }

  /** For normal intervals the first timer is the one with the least microseconds to go. */
  lemma FirstMicros(timers: map<nat, Timer>, started: map<nat, Timeval>, id: nat, x: nat, now: Timeval)
    requires timers.Keys == started.Keys && id in timers && x in timers && Normal(now)
    requires Normal(timers[id].orig) && Normal(timers[x].orig) && Normal(started[id]) && Normal(started[x])
    requires TvCmp(TimeoutAt(started[id], timers[id].orig), TimeoutAt(started[x], timers[x].orig)) <= 0
    ensures var tv := Remaining(TimeoutAt(started[id], timers[id].orig), now);
            Normal(tv) && tv.sec >= 0 &&
            Micros(tv) <= if Micros(started[x]) + Micros(timers[x].orig) > Micros(now)
                          then Micros(started[x]) + Micros(timers[x].orig) - Micros(now) else 0
  {
    TimeoutAdds(started[id], timers[id].orig);
    TimeoutAdds(started[x], timers[x].orig);
    TvCmpMicros(TimeoutAt(started[id], timers[id].orig), TimeoutAt(started[x], timers[x].orig));
  }
}
