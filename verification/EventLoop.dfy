/**
 The event loop (events/events.c) over the event sources themselves. Callbacks register,
 cancel and reset events at will, polls report what they like within the contract of
 poll(2), the clock only goes forward, and an interrupt may be requested at any time. Since
 callbacks can keep the loop busy for ever, a call is followed for any number of turns.
 */
module EventLoop {
  import opened Machine
  import TQ = TimerQueue
  import IE = ImmediateEvents
  import NE = NetworkEvents
  import ET = EventTimers

  /** An event, by its identity in the source it is from. */
  datatype Source =
    | Immediate(n: IE.Node)
    | Network(key: (nat, NE.Op), e: NE.Event)
    | Timer(id: nat, event: ET.Event)

  /** A return of poll(2), and whether a scan just before would find nothing; or the callback of an event and what it returned. */
  datatype Mark = Polled(timeout: int, completed: bool, scanned: bool) | Ran(source: Source, rc: int)

  /** What the three sources hold, and which registrations of sockets are ready. */
  datatype World = World(
    pending: set<IE.Node>,
    registered: NE.Registrations,
    ready: set<(nat, NE.Op)>,
    timers: map<nat, ET.Timer>,
    due: map<nat, TQ.Timeval>)

  /** What happened; the sources just before and after; whether an interrupt was requested then; and the last clock reading. */
  datatype Entry = Entry(mark: Mark, found: World, left: World, interrupt: bool, requested: bool, clock: TQ.Timeval)

  type Log = seq<Entry>

  /** How a call ends; Cut if it has not ended after the given number of turns. */
  datatype Outcome = Returned(rc: int) | Error | Cut

  // ------------------------------------------------------- what a log promises

  /** What happened last was a callback that failed. */
  ghost predicate Broken(log: Log) {
    log != [] && log[|log| - 1].mark.Ran? && log[|log| - 1].mark.rc != 0
  }

  /** What happened last was a poll that found nothing, and was complete unless an interrupt is requested. */
  ghost predicate JustPolled(log: Log, interrupt: bool) {
    log != [] && log[|log| - 1].mark.Polled? && log[|log| - 1].found.ready == {} && (interrupt || log[|log| - 1].mark.completed)
  }

  /** What happened last was a callback. */
  ghost predicate LastRan(log: Log) {
    log != [] && log[|log| - 1].mark.Ran?
  }

  /** What happened last was a poll that found something. */
  ghost predicate Unread(log: Log) {
    log != [] && log[|log| - 1].mark.Polled? && log[|log| - 1].found.ready != {}
  }

  /** An interrupt that was requested during a callback, or the first poll, ends the call. */
  ghost predicate Uninterrupted(log: Log) {
    log != [] && (LastRan(log) || |log| == 1) ==> !log[|log| - 1].requested
  }

  /** What may follow a log: an entry that respects the order of the sources, and interrupts. */
  ghost predicate Follows(log: Log, e: Entry) {
    Uninterrupted(log) &&
    match e.mark
    case Polled(timeout, _, scanned) => e.found.pending == {} && (log == [] || (timeout == 0 && scanned && !Unread(log)))
    case Ran(Immediate(_), _) => true
    case Ran(Network(_, _), _) => e.found.pending == {}
    case Ran(Timer(_, _), _) => e.found.pending == {} && e.found.ready == {} && JustPolled(log, e.interrupt)
  }

  /** A log of which every entry may follow the ones before it, none of which has failed. */
  ghost predicate Orderly(log: Log) {
    log == [] || var n := |log| - 1; Orderly(log[..n]) && !Broken(log[..n]) && Follows(log[..n], log[n])
  }

  lemma OrderlyNext(log: Log, e: Entry)
    requires Orderly(log) && !Broken(log) && Follows(log, e)
    ensures Orderly(log + [e])
  {
    assert (log + [e])[..|log|] == log;
  }

  /** What a callback will return, and leave, does not matter for whether it may run. */
  lemma OutcomeIsFree(log: Log, e: Entry, source: Source, rc: int, left: World, requested: bool)
    requires e.mark == Ran(source, 0) && Follows(log, e)
    ensures Follows(log, e.(mark := Ran(source, rc), left := left, requested := requested))
  {
  }

  lemma {:induction false} OrderlyAt(log: Log, k: nat)
    requires Orderly(log) && k < |log|
    ensures Orderly(log[..k]) && !Broken(log[..k]) && Follows(log[..k], log[k])
    decreases |log|
  {
    var n := |log| - 1;
    if k < n {
      OrderlyAt(log[..n], k);
      assert log[..n][..k] == log[..k];
    }
  }

  /** A socket callback runs only when no immediate event is queued. */
  lemma NetworkAfterImmediate(log: Log, k: nat)
    requires Orderly(log) && k < |log| && log[k].mark.Ran? && log[k].mark.source.Network?
    ensures log[k].found.pending == {}
  {
    OrderlyAt(log, k);
  }

  /**
   A timer callback runs only when no immediate event is queued, no descriptor is ready, and what
   happened last was a poll, which found nothing; without an interrupt, that poll was complete.
   */
  lemma TimersRunLast(log: Log, k: nat)
    requires Orderly(log) && k < |log| && log[k].mark.Ran? && log[k].mark.source.Timer?
    ensures log[k].found.pending == {} && log[k].found.ready == {}
    ensures k > 0 && log[k - 1].mark.Polled? && log[k - 1].found.ready == {} && (log[k].interrupt || log[k - 1].mark.completed)
  {
    OrderlyAt(log, k);
  }

  /** No callback runs, and nothing is polled, after a callback that failed. */
  lemma FailureStops(log: Log, k: nat)
    requires Orderly(log) && k < |log| - 1 && log[k].mark.Ran?
    ensures log[k].mark.rc == 0
  {
    OrderlyAt(log, k + 1);
  }

  /** Nothing happens after a callback, or the first poll, during which an interrupt was requested. */
  lemma InterruptStops(log: Log, k: nat)
    requires Orderly(log) && k < |log| - 1 && (log[k].mark.Ran? || k == 0)
    ensures !log[k].requested
  {
    OrderlyAt(log, k + 1);
  }

  /** Only the first thing that happens may be a poll that waits. */
  lemma WaitsOnce(log: Log, k: nat)
    requires Orderly(log) && 0 < k < |log| && log[k].mark.Polled?
    ensures log[k].mark.timeout == 0
  {
    OrderlyAt(log, k);
  }

  /** No poll is made while an immediate event is queued and, but for the first, none while a scan would find something. */
  lemma PollsRunOut(log: Log, k: nat)
    requires Orderly(log) && k < |log| && log[k].mark.Polled?
    ensures log[k].found.pending == {} && (k > 0 ==> log[k].mark.scanned)
  {
    OrderlyAt(log, k);
  }

  /** After a poll that found something, no poll is next: a callback is, if anything is. */
  lemma FoundIsRun(log: Log, k: nat)
    requires Orderly(log) && k < |log| - 1 && log[k].mark.Polled? && log[k].found.ready != {}
    ensures log[k + 1].mark.Ran? && !log[k + 1].mark.source.Timer?
  {
    OrderlyAt(log, k + 1);
  }

  /** Nothing but polls. */
  ghost predicate OnlyPolls(log: Log) {
    log == [] || var n := |log| - 1; OnlyPolls(log[..n]) && log[n].mark.Polled?
  }

  lemma {:induction false} OnlyPollsPrefix(a: Log, b: Log)
    requires a <= b && OnlyPolls(b)
    ensures OnlyPolls(a)
    decreases |b|
  {
    if a == b {
    } else {
      assert a <= b[..|b| - 1];
      OnlyPollsPrefix(a, b[..|b| - 1]);
    }
  }

  /** Polls that found nothing, and nothing else. */
  ghost predicate Fruitless(log: Log) {
    forall k :: 0 <= k < |log| ==> log[k].mark.Polled? && log[k].found.ready == {}
  }

  /** If no callback ran, no poll but the last can have found anything. */
  lemma {:induction false} PollsFoundNothing(log: Log)
    requires Orderly(log) && OnlyPolls(log) && !Unread(log)
    ensures Fruitless(log)
    decreases |log|
  {
    if log != [] {
      PollsFoundNothing(log[..|log| - 1]);
    }
  }

  /** Callbacks of immediate events and nothing else. */
  ghost predicate OnlyImmediate(log: Log) {
    log == [] || var n := |log| - 1; OnlyImmediate(log[..n]) && log[n].mark.Ran? && log[n].mark.source.Immediate?
  }

  lemma {:induction false} OnlyImmediateAt(log: Log, k: nat)
    requires OnlyImmediate(log) && k < |log|
    ensures log[k].mark.Ran? && log[k].mark.source.Immediate?
    decreases |log|
  {
    if k < |log| - 1 {
      OnlyImmediateAt(log[..|log| - 1], k);
    }
  }

  /** What the first poll waits for: the first timer, or nothing in particular. */
  ghost predicate WaitsFor(timeout: int, due: map<nat, TQ.Timeval>, now: TQ.Timeval) {
    if due == map[] then timeout == -1
    else exists id :: ET.First(due, id) && timeout == ET.PollTimeout(Some(ET.Remaining(due[id], now)))
  }

  // ------------------------------------------------------ what becomes of events

  /** The event is in its source. */
  ghost predicate Holds(w: World, x: Source) {
    match x
    case Immediate(n) => n in w.pending
    case Network(key, e) => key in w.registered && w.registered[key] == e
    case Timer(id, event) => id in w.timers && w.timers[id].event == event
  }

  /** The sources without that event. */
  ghost function Without(w: World, x: Source): World {
    match x
    case Immediate(n) => w.(pending := w.pending - {n})
    case Network(key, _) => w.(registered := w.registered - {key}, ready := w.ready - {key})
    case Timer(id, _) => w.(timers := w.timers - {id}, due := w.due - {id})
  }

  /** The event may be taken: it is the first by priority and age, it is ready, or it is the first that is due. */
  ghost predicate MayTake(w: World, x: Source, clock: TQ.Timeval) {
    match x
    case Immediate(n) => forall m :: m in w.pending && m != n ==> IE.Before(n, m)
    case Network(key, _) => key in w.ready
    case Timer(id, _) => ET.First(w.due, id) && TQ.TvCmp(w.due[id], clock) <= 0
  }

  /**
   What one entry of a log does to the sources w: a poll changes nothing but what is ready, and a callback
   is that of an event which has just been taken from its source, and nothing else has.
   */
  ghost predicate Does(w: World, e: Entry) {
    match e.mark
    case Polled(_, _, _) => e.found == w.(ready := e.found.ready) && e.left == e.found
    case Ran(x, _) => Holds(w, x) && MayTake(w, x, e.clock) && e.found == Without(w, x)
  }

  /** What the sources hold after a log that begins with w. */
  ghost function LeftBy(w: World, log: Log): World {
    if log == [] then w else log[|log| - 1].left
  }

  /** Every entry goes on from where the one before it has left off. */
  ghost predicate Told(w: World, log: Log) {
    log == [] || var n := |log| - 1; Told(w, log[..n]) && Does(LeftBy(w, log[..n]), log[n])
  }

  lemma ToldNext(w: World, log: Log, e: Entry)
    requires Told(w, log) && Does(LeftBy(w, log), e)
    ensures Told(w, log + [e]) && LeftBy(w, log + [e]) == e.left
  {
    assert (log + [e])[..|log|] == log;
  }

  lemma {:induction false} ToldAt(w: World, log: Log, k: nat)
    requires Told(w, log) && k < |log|
    ensures Told(w, log[..k]) && Does(LeftBy(w, log[..k]), log[k])
    decreases |log|
  {
    var n := |log| - 1;
    if k < n {
      ToldAt(w, log[..n], k);
      assert log[..n][..k] == log[..k];
    }
  }

  /** The k-th thing that happened was the callback of this event. */
  ghost predicate RanAt(log: Log, k: nat, x: Source) {
    k < |log| && log[k].mark.Ran? && log[k].mark.source == x
  }

  /** The k-th thing that happened was a callback that took the event out of its source. */
  ghost predicate DroppedAt(log: Log, k: nat, x: Source) {
    k < |log| && log[k].mark.Ran? && Holds(log[k].found, x) && !Holds(log[k].left, x)
  }

  /** The k-th thing that happened was a callback that put the event into its source. */
  ghost predicate BroughtAt(log: Log, k: nat, x: Source) {
    k < |log| && log[k].mark.Ran? && !Holds(log[k].found, x) && Holds(log[k].left, x)
  }

  /** Taking an event out takes no other one out. */
  lemma OthersStay(w: World, x: Source, y: Source)
    requires Holds(w, x) && Holds(w, y) && x != y
    ensures Holds(Without(w, x), y)
  {
  }

  lemma NothingComes(w: World, x: Source, y: Source)
    requires Holds(w, x) && Holds(Without(w, x), y)
    ensures Holds(w, y) && x != y
  {
  }

  /** No event is lost: one that was there is there still, or its callback was run, or a callback took it away. */
  lemma {:induction false} NothingIsLost(w: World, log: Log, x: Source) returns (k: nat)
    requires Told(w, log) && Holds(w, x)
    ensures Holds(LeftBy(w, log), x) || RanAt(log, k, x) || DroppedAt(log, k, x)
    decreases |log|
  {
    k := 0;
    if log != [] {
      var n := |log| - 1;
      k := NothingIsLost(w, log[..n], x);
      var before := LeftBy(w, log[..n]);
      if Holds(before, x) {
        k := n;
        if log[n].mark.Ran? && log[n].mark.source != x {
          OthersStay(before, log[n].mark.source, x);
        }
      }
    }
  }

  /** Nothing is run that was not there: it was there at the start, or a callback has brought it. */
  lemma {:induction false} NothingIsMadeUp(w: World, log: Log, x: Source) returns (k: nat)
    requires Told(w, log) && Holds(LeftBy(w, log), x)
    ensures Holds(w, x) || BroughtAt(log, k, x)
    decreases |log|
  {
    k := 0;
    if log != [] {
      var n := |log| - 1;
      if log[n].mark.Ran? && !Holds(log[n].found, x) {
        k := n;
      } else {
        if log[n].mark.Ran? {
          NothingComes(LeftBy(w, log[..n]), log[n].mark.source, x);
        }
        k := NothingIsMadeUp(w, log[..n], x);
      }
    }
  }

  /** What is run was there at the start, or was brought by a callback before it. */
  lemma RunWasThere(w: World, log: Log, i: nat) returns (k: nat)
    requires Told(w, log) && i < |log| && log[i].mark.Ran?
    ensures Holds(w, log[i].mark.source) || (k < i && BroughtAt(log, k, log[i].mark.source))
  {
    ToldAt(w, log, i);
    k := NothingIsMadeUp(w, log[..i], log[i].mark.source);
  }

  // -------------------------------------------------------------------- the code

  class Loop {
    const imm: IE.Immediate
    const net: NE.Network
    const tim: ET.EventTimers
    var interrupt: bool
    ghost var log: Log
    ghost var begun: World  // the sources when the log was begun

    ghost predicate Sources()
      reads this, imm, net, tim, tim.Q, tim.Q.H, tim.Q.H.elems, tim.Q.Records()
    {
      imm.Valid() && net.Valid() && tim.Valid()
    }

    /** The sources are valid. The guard keeps their invariants out of proofs that do not ask for them. */
    ghost predicate Valid()
      reads this, imm, net, tim, tim.Q, tim.Q.H, tim.Q.H.elems, tim.Q.Records()
    {
      forall b {:trigger Asked(b)} :: Asked(b) ==> Sources()
    }

    /** The records of timers; those that come later are new objects. */
    ghost function Records(): set<TQ.TimerRec>
      reads tim.Q, tim.Q.H
    {
      tim.Q.Records()
    }

    ghost function Pending(): set<IE.Node>
      reads imm
    {
      IE.Pending(imm.heads)
    }

    ghost function Ready(): set<(nat, NE.Op)>
      reads net
    {
      NE.ReadySet(net.fds)
    }

    ghost function Here(): World
      reads imm, net, tim
    {
      World(Pending(), net.registered, Ready(), tim.timers, tim.due)
    }

    constructor (now: TQ.Timeval)
      requires ET.Normal(now)
      ensures Valid() && fresh(imm) && fresh(net) && fresh(tim) && fresh(tim.Q) && fresh(tim.Q.H) && Records() == {}
      ensures Pending() == {} && net.registered == map[] && tim.timers == map[] && !interrupt
    {
      imm := new IE.Immediate();
      net := new NE.Network();
      tim := new ET.EventTimers(now);
      interrupt, log, begun := false, [], World({}, map[], {}, map[], map[]);
    }

    // ------------------------------------------------------------ callbacks

    /** events_immediate_register or events_immediate_cancel */
    method ActImmediate()
      requires Valid()
      modifies imm
      ensures Valid()
    {
      assert Asked(true);
      var prio: nat, event: nat, alloc: bool := *, *, *;
      if prio >= 32 {
        return;
      }
      if * {
        var n := imm.Register(event, prio, alloc);
      } else if imm.heads[prio] != [] {
        var i :| 0 <= i < |imm.heads[prio]|;
        assert imm.heads[prio][i] in IE.Pending(imm.heads);
        imm.Cancel(imm.heads[prio][i]);
      }
    }

    /** events_network_register or events_network_cancel */
    method ActNetwork()
      requires Valid()
      modifies net
      ensures Valid()
    {
      assert Asked(true);
      var s: int, op: int, event: nat, alloc: NE.Allocations := *, *, *, *;
      if * {
        if s < INT_MAX {
          var status := net.Register(event, s, op, alloc);
        }
      } else {
        var status := net.Cancel(s, op);
      }
    }

    /** A later clock reading. */
    method Clock() returns (now: TQ.Timeval)
      requires Valid()
      ensures tim.Reading(now)
    {
      assert Asked(true);
      assert tim.Reading(tim.clock);
      now :| tim.Reading(now);
    }

    /** events_timer_register, events_timer_cancel or events_timer_reset */
    method ActTimer()
      requires Valid()
      modifies tim, tim.Q.H, Records()
      ensures Valid() && fresh(Records() - old(Records()))
    {
      var id: nat := *;
      if id !in tim.timers {
        StartTimer(id);
      } else {
        ChangeTimer(id);
      }
    }

    method StartTimer(id: nat)
      requires Valid() && id !in tim.timers
      modifies tim, tim.Q.H, Records()
      ensures Valid() && fresh(Records() - old(Records()))
    {
      assert Asked(true);
      var event: nat, timeo: TQ.Timeval, alloc1: bool, alloc2: bool := *, *, *, *;
      var now := Clock();
      var ok := tim.Register(event, id, timeo, now, alloc1, alloc2);
    }

    method ChangeTimer(id: nat)
      requires Valid() && id in tim.timers
      modifies tim, tim.Q.H, Records()
      ensures Valid() && Records() <= old(Records())
    {
      if * {
        CancelTimer(id);
      } else {
        var now := Clock();
        ResetTimer(id, now);
      }
    }

    method CancelTimer(id: nat)
      requires Valid() && id in tim.timers
      modifies tim, tim.Q.H, Records()
      ensures Valid() && Records() <= old(Records())
    {
      assert Asked(true);
      tim.Cancel(id);
    }

    method ResetTimer(id: nat, now: TQ.Timeval)
      requires Valid() && id in tim.timers && tim.Reading(now)
      modifies tim, tim.Q.H, Records()
      ensures Valid() && Records() <= old(Records())
    {
      assert Asked(true);
      tim.Reset(id, now);
    }

    /** doevent(r): anything may be registered, cancelled and reset. */
    method Callback() returns (rc: int)
      requires Valid()
      modifies this`interrupt, imm, net, tim, tim.Q.H, Records()
      ensures Valid() && fresh(Records() - old(Records()))
    {
      rc := *;
      var n: nat := *;
      while n > 0
        invariant Valid() && fresh(Records() - old(Records()))
      {
        Act();
        n := n - 1;
      }
    }

    method Act()
      requires Valid()
      modifies this`interrupt, imm, net, tim, tim.Q.H, Records()
      ensures Valid() && fresh(Records() - old(Records()))
    {
      if {
        case true => ActImmediate();
        case true => ActNetwork();
        case true => ActTimer();
        case true => interrupt := true;
      }
    }

    // ------------------------------------------------------------ the loop

    /** An orderly log that may go on. */
    ghost predicate MayGoOn()
      reads this
    {
      Orderly(log) && !Broken(log)
    }

    /** The log tells how the sources came to hold what they do. */
    ghost predicate Accounted()
      reads this, imm, net, tim
    {
      Told(begun, log) && Here() == LeftBy(begun, log) && (log != [] && log[|log| - 1].requested ==> interrupt)
    }

    ghost predicate Sound()
      reads this, imm, net, tim, tim.Q, tim.Q.H, tim.Q.H.elems, tim.Q.Records()
    {
      Valid() && Accounted()
    }

    /** The event has just been taken from its source, and nothing else has changed. */
    ghost predicate JustTaken(x: Source)
      reads this, imm, net, tim
    {
      && Told(begun, log) && Holds(LeftBy(begun, log), x) && MayTake(LeftBy(begun, log), x, tim.clock)
      && Here() == Without(LeftBy(begun, log), x)
    }

    /** There is nothing to run: nothing pending, nothing ready, nothing due. */
    ghost predicate Idle()
      reads imm, net, tim
    {
      Pending() == {} && Ready() == {} && ET.NoneDue(tim.due, tim.clock)
    }

    /** A signal handler may request an interrupt. */
    method Signal()
      modifies this`interrupt
      ensures old(interrupt) ==> interrupt
    {
      if * {
        interrupt := true;
      }
    }

    /** What happened last was a callback that returned rc. */
    ghost predicate RanLast(rc: int)
      reads this`log
    {
      log != [] && log[|log| - 1].mark.Ran? && log[|log| - 1].mark.rc == rc
    }

    /** What is so now, with a mark. */
    ghost function Now(mark: Mark): Entry
      reads this, imm, net, tim
    {
      Entry(mark, Here(), Here(), interrupt, interrupt, tim.clock)
    }

    /** Enter something into the log. */
    method Record(ghost e: Entry)
      requires MayGoOn() && Follows(log, e) && Told(begun, log) && Does(LeftBy(begun, log), e)
      modifies this`log
      ensures log == old(log) + [e] && Orderly(log) && (e.mark.Ran? && e.mark.rc != 0 <==> Broken(log))
      ensures Told(begun, log) && LeftBy(begun, log) == e.left
    {
      OrderlyNext(log, e);
      ToldNext(begun, log, e);
      log := log + [e];
    }

    /** Run the callback of an event that was just taken from its source. */
    method Invoke(ghost x: Source) returns (rc: int)
      requires Valid() && MayGoOn() && JustTaken(x) && Follows(log, Now(Ran(x, 0)))
      modifies this`interrupt, this`log, imm, net, tim, tim.Q.H, Records()
      ensures Sound() && fresh(Records() - old(Records()))
      ensures |log| == |old(log)| + 1 && old(log) <= log && log[|old(log)|].mark == Ran(x, rc)
      ensures Orderly(log) && (rc == 0 ==> !Broken(log))
    {
      ghost var e := Now(Ran(x, 0));
      rc := Callback();
      ghost var left := Here();
      OutcomeIsFree(log, e, x, rc, left, interrupt);
      Record(e.(mark := Ran(x, rc), left := left, requested := interrupt));
    }

    /** events_network_select: complete, interrupted on request, or failed. */
    method Poll(timeout: int) returns (ok: bool, ghost completed: bool)
      requires Sound() && MayGoOn() && Uninterrupted(log) && Pending() == {}
      requires log == [] || (timeout == 0 && !Unread(log) && NE.NoneReady(net.fds, net.scanpos))
      modifies this`interrupt, this`log, net
      ensures Sound() && MayGoOn()
      ensures ok ==>
        net.scanpos == NE.ScanStart(|net.fds|) && (completed || interrupt)
        && log == old(log) + [Now(Polled(timeout, completed, old(NE.NoneReady(net.fds, net.scanpos))))]
      ensures !ok ==> log == old(log)
    {
      ghost var scanned := NE.NoneReady(net.fds, net.scanpos);
      ghost var polls;
      ok, completed, polls := Select();
      if ok {
        Record(Now(Polled(timeout, completed, scanned)));
      }
    }

    /** A completed poll marks the entries as poll(2) says; otherwise nothing changes. */
    method Select() returns (ok: bool, completed: bool, polls: seq<NE.Poll>)
      requires Valid()
      modifies this`interrupt, net
      ensures Valid() && net.registered == old(net.registered) && (!completed ==> net.fds == old(net.fds))
      ensures completed ==>
        && polls != [] && polls[|polls| - 1].Completed? && |polls[|polls| - 1].revents| == |old(net.fds)|
        && net.fds == NE.Polled(old(net.fds), polls[|polls| - 1].revents)
      ensures ok ==> net.scanpos == NE.ScanStart(|net.fds|) && (completed || interrupt)
      ensures (!ok ==> !completed) && (old(interrupt) ==> interrupt)
    {
      polls, completed := PollResults();
      if polls[|polls| - 1] == NE.Interrupted(true) {
        interrupt := true;
      }
      ok := SelectWith(polls);
    }

    method SelectWith(polls: seq<NE.Poll>) returns (ok: bool)
      requires Valid()
      requires |polls| > 0 && polls[|polls| - 1] != NE.Interrupted(false)
      requires forall k :: 0 <= k < |polls| - 1 ==> polls[k] == NE.Interrupted(false)
      requires polls[|polls| - 1].Completed? ==> NE.PollContract(net.fds, polls[|polls| - 1].revents)
      modifies net
      ensures Valid() && ok == !polls[|polls| - 1].Failed? && (ok ==> net.scanpos == NE.ScanStart(|net.fds|))
      ensures net.registered == old(net.registered)
      ensures net.fds == if polls[|polls| - 1].Completed? then NE.Polled(old(net.fds), polls[|polls| - 1].revents) else old(net.fds)
    {
      assert Asked(true);
      ok := net.Select(polls);
    }

    /** What poll(2) returns, until it is not merely interrupted. */
    method PollResults() returns (polls: seq<NE.Poll>, completed: bool)
      ensures |polls| > 0 && polls[|polls| - 1] != NE.Interrupted(false)
      ensures forall k :: 0 <= k < |polls| - 1 ==> polls[k] == NE.Interrupted(false)
      ensures polls[|polls| - 1].Completed? ==> NE.PollContract(net.fds, polls[|polls| - 1].revents)
      ensures completed == polls[|polls| - 1].Completed?
    {
      var n: nat :| n >= 0;
      var last;
      if {
        case true =>
          assert NE.PollContract(net.fds, seq(|net.fds|, _ => NE.NOTHING));
          var revents :| NE.PollContract(net.fds, revents);
          last := NE.Completed(revents);
        case true => last := NE.Interrupted(true);
        case true => last := NE.Failed;
      }
      polls, completed := seq(n, _ => NE.Interrupted(false)) + [last], last.Completed?;
    }

    /** Take the first immediate event, if there is one, and run its callback. */
    method TryImmediate() returns (ran: bool, rc: int)
      requires Sound() && MayGoOn() && Uninterrupted(log)
      modifies this`interrupt, this`log, imm, net, tim, tim.Q.H, Records()
      ensures Sound() && fresh(Records() - old(Records())) && Orderly(log) && (rc == 0 ==> !Broken(log))
      ensures ran == old(Pending() != {})
      ensures ran ==> |log| == |old(log)| + 1 && log[..|old(log)|] == old(log)
                      && log[|old(log)|].mark.Ran? && log[|old(log)|].mark.source.Immediate? && log[|old(log)|].mark.rc == rc
      ensures !ran ==> rc == 0 && log == old(log) && Pending() == {} && unchanged(net) && unchanged(tim)
    {
      rc := 0;
      var n := TakeImmediate();
      ran := n.Some?;
      if ran {
        rc := Invoke(Immediate(n.value));
      }
    }

    /** Take the first immediate event. */
    method TakeImmediate() returns (n: Option<IE.Node>)
      requires Sound()
      modifies imm
      ensures Valid() && (n.None? <==> old(Pending()) == {})
      ensures if n.Some? then JustTaken(Immediate(n.value)) else Accounted() && Pending() == {}
    {
      assert Asked(true);
      n := imm.Get();
    }

    /** A scan from the start finds nothing exactly if nothing is ready. */
    lemma ScanIsComplete()
      requires Valid()
      ensures NE.NoneReady(net.fds, NE.ScanStart(|net.fds|)) <==> Ready() == {}
    {
      assert Asked(true);
      NE.FreshScan(net.fds);
      NE.NothingIsReady(net.S, net.fds, net.scanpos);
    }

    /** Take an event that the scan finds, if any, and run its callback. */
    method TryNetwork() returns (ran: bool, rc: int)
      requires Sound() && MayGoOn() && Uninterrupted(log) && Pending() == {}
      modifies this`interrupt, this`log, imm, net, tim, tim.Q.H, Records()
      ensures Sound() && fresh(Records() - old(Records())) && Orderly(log) && (rc == 0 ==> !Broken(log))
      ensures ran == !old(NE.NoneReady(net.fds, net.scanpos))
      ensures ran ==> old(log) <= log && RanLast(rc) && log[|log| - 1].mark.source.Network?
      ensures !ran ==> rc == 0 && log == old(log) && Pending() == {} && Ready() == old(Ready()) && interrupt == old(interrupt) && tim.due == old(tim.due)
      ensures !ran ==> NE.NoneReady(net.fds, net.scanpos)
    {
      rc := 0;
      ghost var x;
      ran, x := TakeNetwork();
      if ran {
        rc := Invoke(x);
      }
    }

    /** Take an event that is ready. */
    method TakeNetwork() returns (taken: bool, ghost x: Source)
      requires Sound()
      modifies net
      ensures Valid() && taken == !old(NE.NoneReady(net.fds, net.scanpos)) && (!taken ==> net.fds == old(net.fds))
      ensures if taken then x.Network? && JustTaken(x) else Accounted() && NE.NoneReady(net.fds, net.scanpos)
    {
      assert Asked(true);
      var r;
      ghost var key;
      r, key := net.Get();
      taken := r.Some?;
      x := Network(key, if taken then r.value else 0);
    }

    /** Take the first timer that is due, if any, and run its callback; reading the clock may fail. */
    method TryTimer() returns (ok: bool, ran: bool, rc: int)
      requires Sound() && MayGoOn() && Uninterrupted(log) && Pending() == {} && Ready() == {}
      requires JustPolled(log, interrupt)
      modifies this`interrupt, this`log, imm, net, tim, tim.Q.H, Records()
      ensures Sound() && fresh(Records() - old(Records())) && Orderly(log) && (rc == 0 ==> !Broken(log)) && log != []
      ensures old(log) <= log && (ran ==> RanLast(rc) && log[|log| - 1].mark.source.Timer?)
      ensures !ran ==> rc == 0 && log == old(log) && tim.due == old(tim.due) && interrupt == old(interrupt)
      ensures ok && !ran ==> Idle()
    {
      ran, rc := false, 0;
      ok := *;
      if !ok {
        return;
      }
      ghost var x;
      ran, x := TakeTimer();
      if ran {
        rc := Invoke(x);
      }
    }

    /** Take a timer that is due from the queue. */
    method TakeTimer() returns (taken: bool, ghost x: Source)
      requires Sound()
      modifies tim, tim.Q.H, Records()
      ensures Valid() && Records() <= old(Records())
      ensures !taken ==> ET.NoneDue(tim.due, tim.clock) && tim.due == old(tim.due)
      ensures if taken then x.Timer? && JustTaken(x) else Accounted()
    {
      var now := Clock();
      var e;
      ghost var id;
      e, id := GetTimer(now);
      taken := e.Some?;
      x := Timer(id, if taken then e.value else 0);
    }

    /** events_timer_get at a clock reading */
    method GetTimer(now: TQ.Timeval) returns (e: Option<ET.Event>, ghost id: nat)
      requires Valid() && tim.Reading(now)
      modifies tim, tim.Q.H, Records()
      ensures Valid() && Records() <= old(Records()) && tim.clock == now
      ensures e.None? ==> tim.timers == old(tim.timers) && tim.due == old(tim.due) && ET.NoneDue(tim.due, now)
      ensures e.Some? ==>
        && id in old(tim.timers) && e.value == old(tim.timers)[id].event
        && ET.First(old(tim.due), id) && TQ.TvCmp(old(tim.due)[id], now) <= 0
        && tim.timers == old(tim.timers) - {id} && tim.due == old(tim.due) - {id}
    {
      assert Asked(true);
      e, id := tim.Get(now);
    }

    /** How the log and the sources look when a call ends. */
    ghost predicate Concluded(out: Outcome)
      reads this, imm, net, tim
    {
      match out
      case Returned(rc) =>
        if rc == 0 then !Broken(log) && (interrupt || (Idle() && JustPolled(log, interrupt)))
        else log != [] && log[|log| - 1].mark.Ran? && log[|log| - 1].mark.rc == rc
      case Error => true
      case Cut => true
    }

    /** The outcome of a turn: none, unless the callback that ran has failed. */
    static function AfterCallback(rc: int): Option<Outcome> {
      if rc == 0 then None else Some(Returned(rc))
    }

    /** If a poll is what happened last, nothing of what it found has been scanned. */
    ghost predicate Unscanned()
      reads this, net
    {
      log != [] && (!LastRan(log) ==> net.scanpos == NE.ScanStart(|net.fds|) && log[|log| - 1].found.ready == Ready())
    }

    /** One turn of the main loop. */
    method Turn() returns (e: Option<Outcome>)
      requires Sound() && MayGoOn() && Unscanned()
      modifies this`interrupt, this`log, imm, net, tim, tim.Q.H, Records()
      ensures Sound() && fresh(Records() - old(Records())) && Orderly(log) && old(log) <= log
      ensures if e.None? then !Broken(log) && LastRan(log) else Concluded(e.value)
      ensures LastRan(log) || tim.due == old(tim.due)
    {
      Signal();
      if interrupt {
        return Some(Returned(0));
      }
      e := RunOne();
    }

    /** The rest of a turn, when no interrupt is requested. */
    method RunOne() returns (e: Option<Outcome>)
      requires Sound() && MayGoOn() && Uninterrupted(log) && Unscanned()
      modifies this`interrupt, this`log, imm, net, tim, tim.Q.H, Records()
      ensures Sound() && fresh(Records() - old(Records())) && Orderly(log) && old(log) <= log
      ensures if e.None? then !Broken(log) && LastRan(log) else Concluded(e.value)
      ensures LastRan(log) || tim.due == old(tim.due)
    {
      var ran, rc := TryImmediate();
      if ran {
        return AfterCallback(rc);
      }
      e := NetworkTurn();
    }

    /** A turn without an immediate event: run a network event, or poll again. */
    method NetworkTurn() returns (e: Option<Outcome>)
      requires Sound() && MayGoOn() && Uninterrupted(log) && Unscanned() && Pending() == {}
      modifies this`interrupt, this`log, imm, net, tim, tim.Q.H, Records()
      ensures Sound() && fresh(Records() - old(Records())) && Orderly(log) && old(log) <= log
      ensures if e.None? then !Broken(log) && LastRan(log) else Concluded(e.value)
      ensures LastRan(log) || tim.due == old(tim.due)
    {
      ScanIsComplete();
      var ran, rc := TryNetwork();
      if ran {
        return AfterCallback(rc);
      }
      e := PollAgain();
    }

    /** The rest of a turn, when no event was available. */
    method PollAgain() returns (e: Option<Outcome>)
      requires Sound() && MayGoOn() && Uninterrupted(log) && log != [] && !Unread(log) && Pending() == {}
      requires NE.NoneReady(net.fds, net.scanpos)
      modifies this`interrupt, this`log, imm, net, tim, tim.Q.H, Records()
      ensures Sound() && fresh(Records() - old(Records())) && Orderly(log) && old(log) <= log
      ensures if e.None? then !Broken(log) && LastRan(log) else Concluded(e.value)
      ensures LastRan(log) || tim.due == old(tim.due)
    {
      var ok, completed := Poll(0);
      if !ok {
        return Some(Error);
      }
      e := PolledTurn();
    }

    /** The poll just made is on record, with what is ready now. */
    ghost predicate OnRecord()
      reads this, net
    {
      && net.scanpos == NE.ScanStart(|net.fds|) && log != [] && log[|log| - 1].mark.Polled?
      && log[|log| - 1].found.ready == Ready() && (interrupt || log[|log| - 1].mark.completed)
    }

    /** Run what the poll just made has reported, or a timer. */
    method PolledTurn() returns (e: Option<Outcome>)
      requires Sound() && MayGoOn() && Uninterrupted(log) && Pending() == {} && OnRecord()
      modifies this`interrupt, this`log, imm, net, tim, tim.Q.H, Records()
      ensures Sound() && fresh(Records() - old(Records())) && Orderly(log) && old(log) <= log
      ensures if e.None? then !Broken(log) && LastRan(log) else Concluded(e.value)
      ensures LastRan(log) || tim.due == old(tim.due)
    {
      var ran, rc := TryPolled();
      if ran {
        return AfterCallback(rc);
      }
      e := TimerTurn();
    }

    /** Run an event that the poll just made has reported; none is left out. */
    method TryPolled() returns (ran: bool, rc: int)
      requires Sound() && MayGoOn() && Uninterrupted(log) && Pending() == {} && OnRecord()
      modifies this`interrupt, this`log, imm, net, tim, tim.Q.H, Records()
      ensures Sound() && fresh(Records() - old(Records())) && Orderly(log) && old(log) <= log && (rc == 0 ==> !Broken(log))
      ensures ran == old(Ready() != {})
      ensures ran ==> RanLast(rc) && log[|log| - 1].mark.source.Network?
      ensures !ran ==> Pending() == {} && Ready() == {} && JustPolled(log, interrupt) && tim.due == old(tim.due)
    {
      ScanIsComplete();
      ran, rc := TryNetwork();
    }

    /** Run a timer event, or find that there is nothing to run. */
    method TimerTurn() returns (e: Option<Outcome>)
      requires Sound() && MayGoOn() && Uninterrupted(log) && Pending() == {} && Ready() == {} && JustPolled(log, interrupt)
      modifies this`interrupt, this`log, imm, net, tim, tim.Q.H, Records()
      ensures Sound() && fresh(Records() - old(Records())) && Orderly(log) && old(log) <= log
      ensures if e.None? then !Broken(log) && LastRan(log) else Concluded(e.value)
      ensures LastRan(log) || tim.due == old(tim.due)
    {
      var ok, ran, rc := TryTimer();
      if !ok {
        return Some(Error);
      }
      if ran {
        return AfterCallback(rc);
      }
      return Some(Returned(0));
    }

    /** So far only immediate events have been run, and the last callback returned rc. */
    ghost predicate RanImmediate(rc: int)
      reads this
    {
      Orderly(log) && OnlyImmediate(log) && log != [] && log[|log| - 1].mark.rc == rc
    }

    /** Process immediate events only, after one whose callback returned rc0. */
    method RunImmediate(rc0: int, turns: nat) returns (out: Outcome)
      requires Sound() && RanImmediate(rc0)
      modifies this`interrupt, this`log, imm, net, tim, tim.Q.H, Records()
      ensures Sound() && fresh(Records() - old(Records())) && Orderly(log) && OnlyImmediate(log) && log != [] && out != Error
      ensures out.Returned? ==> log[|log| - 1].mark.rc == out.rc && (out.rc == 0 && !interrupt ==> Pending() == {})
    {
      var more, rc := true, rc0;
      var left := turns;
      while more && rc == 0
        invariant Sound() && fresh(Records() - old(Records())) && RanImmediate(rc)
        invariant !more ==> rc == 0 && (interrupt || Pending() == {})
        decreases more, left
      {
        if left == 0 {
          return Cut;
        }
        left := left - 1;
        more, rc := NextImmediate();
      }
      return Returned(rc);
    }

    /** Unless interrupted, get the next immediate event, and run it. */
    method NextImmediate() returns (more: bool, rc: int)
      requires Sound() && RanImmediate(0)
      modifies this`interrupt, this`log, imm, net, tim, tim.Q.H, Records()
      ensures Sound() && fresh(Records() - old(Records())) && RanImmediate(rc)
      ensures !more ==> rc == 0 && (interrupt || Pending() == {})
    {
      Signal();
      if interrupt {
        return false, 0;
      }
      ghost var before := log;
      more, rc := TryImmediate();
      if more {
        assert log[..|log| - 1] == before;
      }
    }

    /** events_timer_min, and the timeout that poll gets for it; the clock reading is kept. */
    method FirstTimeout() returns (timeout: int)
      requires Valid()
      modifies tim`clock
      ensures Valid() && ET.Normal(tim.clock) && TQ.TvCmp(old(tim.clock), tim.clock) <= 0 && WaitsFor(timeout, tim.due, tim.clock)
    {
      var now := Clock();
      timeout := TimeoutFor(now);
      Keep(now);
    }

    method TimeoutFor(now: TQ.Timeval) returns (timeout: int)
      requires Valid() && tim.Reading(now)
      ensures WaitsFor(timeout, tim.due, now)
    {
      var tv := FirstTimer(now);
      timeout := ET.PollTimeout(tv);
    }

    /** events_timer_min at a clock reading */
    method FirstTimer(now: TQ.Timeval) returns (tv: Option<TQ.Timeval>)
      requires Valid() && tim.Reading(now)
      ensures tv.None? <==> tim.due == map[]
      ensures tv.Some? ==> exists id :: ET.First(tim.due, id) && tv.value == ET.Remaining(tim.due[id], now)
    {
      assert Asked(true);
      assert tim.due.Keys == tim.timers.Keys;
      tv := tim.Min(now);
    }

    method Keep(now: TQ.Timeval)
      requires Valid() && tim.Reading(now)
      modifies tim`clock
      ensures Valid() && tim.clock == now
    {
      assert Asked(true);
      tim.Tick(now);
    }

    /** events_timer_min, then events_network_select; the flag is false on failure. */
    method WaitForEvents() returns (ok: bool)
      requires Sound() && log == [] && Pending() == {}
      modifies this`interrupt, this`log, net, tim`clock
      ensures Sound() && MayGoOn()
      ensures !ok ==> log == []
      ensures ok ==> |log| == 1 && FirstWait(tim.due, old(tim.clock)) && Unscanned()
    {
      ok := *;
      if !ok {
        return;
      }
      var timeout := FirstTimeout();
      ghost var completed;
      ok, completed := Poll(timeout);
    }

    /** The first thing that happened was a poll, which waited for the first timer, by a clock reading after start. */
    ghost predicate FirstWait(due: map<nat, TQ.Timeval>, start: TQ.Timeval)
      reads this
    {
      && log != [] && log[0].mark.Polled?
      && ET.Normal(log[0].clock) && TQ.TvCmp(start, log[0].clock) <= 0 && WaitsFor(log[0].mark.timeout, due, log[0].clock)
    }

    /** The main loop. */
    method RunMain(turns: nat) returns (out: Outcome)
      requires Sound() && MayGoOn() && Unscanned()
      modifies this`interrupt, this`log, imm, net, tim, tim.Q.H, Records()
      ensures Sound() && fresh(Records() - old(Records())) && Orderly(log) && old(log) <= log && Concluded(out)
      ensures OnlyPolls(log) ==> tim.due == old(tim.due)
    {
      var left := turns;
      while left > 0
        invariant Sound() && fresh(Records() - old(Records())) && MayGoOn() && old(log) <= log && Unscanned()
        invariant OnlyPolls(log) ==> tim.due == old(tim.due)
      {
        var e := NextTurn(old(log), old(tim.due));
        if e.Some? {
          return e.value;
        }
        left := left - 1;
      }
      return Cut;
    }

    /** One more turn since the log was first, and the timers were due as given. */
    method NextTurn(ghost first: Log, ghost due: map<nat, TQ.Timeval>) returns (e: Option<Outcome>)
      requires Sound() && MayGoOn() && Unscanned() && first <= log && (OnlyPolls(log) ==> tim.due == due)
      modifies this`interrupt, this`log, imm, net, tim, tim.Q.H, Records()
      ensures Sound() && fresh(Records() - old(Records())) && Orderly(log) && first <= log && (OnlyPolls(log) ==> tim.due == due)
      ensures if e.None? then !Broken(log) && Unscanned() else Concluded(e.value)
    {
      ghost var before := log;
      e := Turn();
      if OnlyPolls(log) {
        OnlyPollsPrefix(before, log);
      }
    }

    /** A call that finds no immediate event. */
    method RunWaiting(turns: nat) returns (out: Outcome)
      requires Sound() && log == [] && Pending() == {}
      modifies this`interrupt, this`log, imm, net, tim, tim.Q.H, Records()
      ensures Sound() && fresh(Records() - old(Records())) && Orderly(log) && Concluded(out)
      ensures log != [] ==> FirstWait(old(tim.due), old(tim.clock))
      ensures out == Returned(0) && !interrupt && OnlyPolls(log) ==> ET.NoneDue(old(tim.due), tim.clock) && Fruitless(log)
    {
      var ok := WaitForEvents();
      if !ok {
        return Error;
      }
      out := RunMain(turns);
      if out == Returned(0) && !interrupt {
        NothingRun();
      }
    }

    /** A log that ends with a poll that found nothing, and without a callback, has only such polls. */
    lemma NothingRun()
      requires Orderly(log) && JustPolled(log, interrupt)
      ensures OnlyPolls(log) ==> Fruitless(log)
    {
      if OnlyPolls(log) {
        PollsFoundNothing(log);
      }
    }

    /**
     events_run_internal(). The log accounts for every event that has left its source. Success without an interrupt means that there is nothing to run; if no
     callback was run, there was nothing to run at the start, nor did any poll find anything.
     */
    method Run(turns: nat) returns (out: Outcome)
      requires Valid()
      modifies this, imm, net, tim, tim.Q.H, Records()
      ensures Valid() && fresh(Records() - old(Records())) && Orderly(log)
      ensures Told(old(Here()), log) && Here() == LeftBy(old(Here()), log)
      ensures old(Pending()) != {} ==> OnlyImmediate(log) && log != [] && (out == Returned(0) && !interrupt ==> Pending() == {})
      ensures old(Pending()) == {} ==>
        (log != [] ==> FirstWait(old(tim.due), old(tim.clock))) && (out == Returned(0) && !interrupt ==> Idle())
      ensures out == Returned(0) ==> !Broken(log)
      ensures out.Returned? && out.rc != 0 ==> Broken(log) && log[|log| - 1].mark.rc == out.rc
      ensures out == Returned(0) && !interrupt && OnlyPolls(log) ==>
        old(Pending()) == {} && ET.NoneDue(old(tim.due), tim.clock) && Fruitless(log)
    {
      var ran, rc := FirstImmediate();
      if ran {
        out := RunImmediate(rc, turns);
        return;
      }
      out := RunWaiting(turns);
    }

    /** Start a log with an immediate event, if there is one. */
    method FirstImmediate() returns (ran: bool, rc: int)
      requires Valid()
      modifies this, imm, net, tim, tim.Q.H, Records()
      ensures Sound() && fresh(Records() - old(Records())) && ran == old(Pending() != {}) && begun == old(Here())
      ensures ran ==> Orderly(log) && OnlyImmediate(log) && log != [] && log[|log| - 1].mark.rc == rc
      ensures !ran ==> log == [] && Pending() == {} && tim.due == old(tim.due) && tim.clock == old(tim.clock)
    {
      log, begun := [], Here();
      ran, rc := TryImmediate();
      if ran {
        assert log[..0] == [];
      }
    }
  }
}
