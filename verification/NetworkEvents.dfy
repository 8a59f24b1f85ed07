/**
 Socket readiness events (events/events_network.c): the socket list S and the
 pollfd array point at each other, entries leave the array by swapping with the
 last one, and a cursor scans it downwards.
 */
module NetworkEvents {
  import opened Machine

  type Event = nat  // the identity of an event record

  datatype Op = Read | Write

  /** POLLIN, POLLOUT, POLLERR and POLLHUP. */
  datatype Mask = Mask(rd: bool, wr: bool, err: bool, hup: bool)

  datatype PollFd = PollFd(fd: nat, events: Mask, revents: Mask)

  datatype SocketRec = SocketRec(reader: Option<Event>, writer: Option<Event>, pollpos: nat)

  type Sockets = seq<SocketRec>
  type PollFds = seq<PollFd>
  type Registrations = map<(nat, Op), Event>

  const SIZEOF_POLLFD: nat := 8

  const NOTHING := Mask(false, false, false, false)

  function Has(m: Mask, op: Op): bool {
    if op.Read? then m.rd else m.wr
  }

  function With(m: Mask, op: Op): Mask {
    if op.Read? then m.(rd := true) else m.(wr := true)
  }

  function Without(m: Mask, op: Op): Mask {
    if op.Read? then m.(rd := false) else m.(wr := false)
  }

  function Slot(r: SocketRec, op: Op): Option<Event> {
    if op.Read? then r.reader else r.writer
  }

  function SetSlot(r: SocketRec, op: Op, e: Option<Event>): SocketRec {
    if op.Read? then r.(reader := e) else r.(writer := e)
  }

  /** The event registered for a socket and an operation. */
  function Lookup(S: Sockets, fd: nat, op: Op): Option<Event> {
    if fd < |S| then Slot(S[fd], op) else None
  }

  // ------------------------------------------------------------------ invariants

  /** 1. Initialized entries in S and fds point to each other. */
  ghost predicate Linked(S: Sockets, fds: PollFds) {
    && (forall i :: 0 <= i < |S| && S[i].pollpos < |fds| ==> fds[S[i].pollpos].fd == i)
    && (forall j :: 0 <= j < |fds| ==> fds[j].fd < |S| && S[fds[j].fd].pollpos == j)
  }

  /**
   2. Descriptors with events registered are in the array.
   3. Descriptors without events registered are not in the way.
   4. Descriptors with events registered have the right masks.
   */
  ghost predicate Masked(S: Sockets, fds: PollFds) {
    forall i :: 0 <= i < |S| ==>
      && ((S[i].reader.Some? || S[i].writer.Some?) ==> S[i].pollpos < |fds|)
      && (S[i].reader.None? && S[i].writer.None? ==> S[i].pollpos == SIZE_MAX)
      && (S[i].pollpos < |fds| ==>
            && S[i].reader.Some? == fds[S[i].pollpos].events.rd
            && S[i].writer.Some? == fds[S[i].pollpos].events.wr)
  }

  /**
   5. There are no events ready which are not wanted.
   6. Ready events are in position to be scanned later.
   */
  ghost predicate Scannable(fds: PollFds, scanpos: nat) {
    forall j :: 0 <= j < |fds| ==>
      && !fds[j].events.err && !fds[j].events.hup
      && (fds[j].revents.rd ==> fds[j].events.rd)
      && (fds[j].revents.wr ==> fds[j].events.wr)
      && (fds[j].revents != NOTHING ==> j <= scanpos)
  }

  ghost predicate Inv(S: Sockets, fds: PollFds, scanpos: nat) {
    && |fds| < SIZE_MAX
    && Linked(S, fds) && Masked(S, fds) && Scannable(fds, scanpos)
  }

  /** The socket list says the same as a plain map from (socket, operation) to event. */
  ghost predicate Refines(S: Sockets, m: Registrations) {
    forall fd: nat, op: Op :: Lookup(S, fd, op) == if (fd, op) in m then Some(m[(fd, op)]) else None
  }

  /** What the last completed poll said about a descriptor. */
  function Reported(reports: map<nat, Mask>, fd: nat): Mask {
    if fd in reports then reports[fd] else NOTHING
  }

  ghost predicate Hung(reports: map<nat, Mask>, fd: nat) {
    Reported(reports, fd).err || Reported(reports, fd).hup
  }

  /** The event registered for (fd, op) may be returned: poll reported the
      operation for this very registration, or ERR or HUP for the descriptor. */
  ghost predicate Justified(reports: map<nat, Mask>, polled: Registrations, now: Registrations, fd: nat, op: Op) {
    || Hung(reports, fd)
    || (Has(Reported(reports, fd), op) && (fd, op) in polled && (fd, op) in now && polled[(fd, op)] == now[(fd, op)])
  }

  ghost predicate AllJustified(fds: PollFds, reports: map<nat, Mask>, polled: Registrations, now: Registrations) {
    forall j :: 0 <= j < |fds| ==>
      && (forall op :: Has(fds[j].revents, op) ==> Justified(reports, polled, now, fds[j].fd, op))
      && (fds[j].revents.err || fds[j].revents.hup ==> Hung(reports, fds[j].fd))
  }

  // ---------------------------------------------------------------------- clearbit

  /** clearbit(pollpos, bit) */
  function Cleared(S: Sockets, fds: PollFds, pos: nat, op: Op): (r: (Sockets, PollFds))
    requires pos < |fds| && forall j :: 0 <= j < |fds| ==> fds[j].fd < |S|
  {
    var p := fds[pos].(events := Without(fds[pos].events, op), revents := Without(fds[pos].revents, op));
    if p.events != NOTHING then (S, fds[pos := p])
    else
      var n := |fds| - 1;
      var S1 := S[p.fd := S[p.fd].(pollpos := SIZE_MAX)];
      if pos == n then (S1, fds[..n])
      else (S1[fds[n].fd := S1[fds[n].fd].(pollpos := pos)], fds[..n][pos := fds[n]])
  }

  /** The entry at pos belongs to fd alone. */
  ghost predicate Owns(S: Sockets, fds: PollFds, fd: nat, pos: nat) {
    && fd < |S| && pos < |fds| && S[fd].pollpos == pos && fds[pos].fd == fd
    && (forall j :: 0 <= j < |fds| ==> fds[j].fd < |S| && (fds[j].fd == fd ==> j == pos))
  }

  lemma Owner(S: Sockets, fds: PollFds, scanpos: nat, fd: nat, op: Op)
    requires Inv(S, fds, scanpos)
    requires fd < |S| && Slot(S[fd], op).Some?
    ensures Owns(S, fds, fd, S[fd].pollpos)
  {
  }

  lemma ClearedLinked(S: Sockets, fds: PollFds, fd: nat, op: Op)
    requires |fds| < SIZE_MAX && Linked(S, fds) && fd < |S| && Owns(S, fds, fd, S[fd].pollpos)
    ensures var r := Cleared(S[fd := SetSlot(S[fd], op, None)], fds, S[fd].pollpos, op); Linked(r.0, r.1)
  {
  }

  lemma ClearedMasked(S: Sockets, fds: PollFds, scanpos: nat, fd: nat, op: Op)
    requires Inv(S, fds, scanpos) && fd < |S| && Owns(S, fds, fd, S[fd].pollpos)
    ensures var r := Cleared(S[fd := SetSlot(S[fd], op, None)], fds, S[fd].pollpos, op); Masked(r.0, r.1)
  {
    var pos := S[fd].pollpos;
    var (S', fds') := Cleared(S[fd := SetSlot(S[fd], op, None)], fds, pos, op);
    forall i | 0 <= i < |S'| && S'[i].pollpos < |fds'|
      ensures S'[i].reader.Some? == fds'[S'[i].pollpos].events.rd && S'[i].writer.Some? == fds'[S'[i].pollpos].events.wr
    {
    }
  }

  lemma ClearedScannable(S: Sockets, fds: PollFds, scanpos: nat, fd: nat, op: Op)
    requires Scannable(fds, scanpos) && fd < |S| && Owns(S, fds, fd, S[fd].pollpos)
    ensures Scannable(Cleared(S[fd := SetSlot(S[fd], op, None)], fds, S[fd].pollpos, op).1, scanpos)
  {
  }

  /** Dropping a registration and clearing its bit keeps every invariant. */
  lemma ClearedInv(S: Sockets, fds: PollFds, scanpos: nat, fd: nat, op: Op)
    requires Inv(S, fds, scanpos)
    requires fd < |S| && Slot(S[fd], op).Some?
    ensures Owns(S, fds, fd, S[fd].pollpos)
    ensures var r := Cleared(S[fd := SetSlot(S[fd], op, None)], fds, S[fd].pollpos, op); Inv(r.0, r.1, scanpos)
  {
    Owner(S, fds, scanpos, fd, op);
    ClearedLinked(S, fds, fd, op);
    ClearedMasked(S, fds, scanpos, fd, op);
    ClearedScannable(S, fds, scanpos, fd, op);
  }

  lemma ClearedRefines(S: Sockets, fds: PollFds, fd: nat, op: Op, m: Registrations)
    requires fd < |S| && Owns(S, fds, fd, S[fd].pollpos)
    requires Refines(S, m)
    ensures Refines(Cleared(S[fd := SetSlot(S[fd], op, None)], fds, S[fd].pollpos, op).0, m - {(fd, op)})
  {
    var S0 := S[fd := SetSlot(S[fd], op, None)];
    var S' := Cleared(S0, fds, S[fd].pollpos, op).0;
    forall f: nat, o: Op
      ensures Lookup(S', f, o) == if (f, o) in m - {(fd, op)} then Some((m - {(fd, op)})[(f, o)]) else None
    {
      assert Lookup(S', f, o) == Lookup(S0, f, o);
      assert Lookup(S0, f, o) == if f == fd && o == op then None else Lookup(S, f, o);
    }
  }

  lemma ClearedJustified(S: Sockets, fds: PollFds, fd: nat, op: Op,
                         reports: map<nat, Mask>, polled: Registrations, now: Registrations)
    requires fd < |S| && Owns(S, fds, fd, S[fd].pollpos)
    requires AllJustified(fds, reports, polled, now)
    ensures AllJustified(Cleared(S[fd := SetSlot(S[fd], op, None)], fds, S[fd].pollpos, op).1, reports, polled, now - {(fd, op)})
  {
    var pos := S[fd].pollpos;
    var fds' := Cleared(S[fd := SetSlot(S[fd], op, None)], fds, pos, op).1;
    forall j | 0 <= j < |fds'|
      ensures forall o :: Has(fds'[j].revents, o) ==> Justified(reports, polled, now - {(fd, op)}, fds'[j].fd, o)
      ensures fds'[j].revents.err || fds'[j].revents.hup ==> Hung(reports, fds'[j].fd)
    {
      var j0 := if j == pos && |fds'| < |fds| then |fds'| else j;
      assert fds'[j].fd == fds[j0].fd;
      forall o | Has(fds'[j].revents, o)
        ensures Justified(reports, polled, now - {(fd, op)}, fds'[j].fd, o)
      {
        assert Has(fds[j0].revents, o) && (fds[j0].fd, o) != (fd, op);
      }
    }
  }

  // ---------------------------------------------------------------------- registering

  const BLANK := SocketRec(None, None, SIZE_MAX)

  /** growsocketlist(nrec) */
  function Grown(S: Sockets, n: nat): (r: Sockets)
    ensures |r| >= n && |r| >= |S|
  {
    if n <= |S| then S else S + seq(n - |S|, _ => BLANK)
  }

  lemma GrownInv(S: Sockets, fds: PollFds, scanpos: nat, n: nat, m: Registrations)
    requires Inv(S, fds, scanpos) && Refines(S, m)
    ensures Inv(Grown(S, n), fds, scanpos) && Refines(Grown(S, n), m)
  {
    var S' := Grown(S, n);
    assert forall i :: |S| <= i < |S'| ==> S'[i] == BLANK;
    assert forall fd: nat, op: Op :: Lookup(S', fd, op) == Lookup(S, fd, op);
  }

  /** The tables after an event has been stored and its poll bit set. */
  function Enlisted(S: Sockets, fds: PollFds, fd: nat, op: Op, e: Event): (Sockets, PollFds)
    requires fd < |S| && (S[fd].pollpos == SIZE_MAX || S[fd].pollpos < |fds|)
  {
    var r := SetSlot(S[fd], op, Some(e));
    if S[fd].pollpos == SIZE_MAX then
      (S[fd := r.(pollpos := |fds|)], fds + [PollFd(fd, With(NOTHING, op), NOTHING)])
    else
      var p := fds[S[fd].pollpos];
      (S[fd := r], fds[S[fd].pollpos := p.(events := With(p.events, op))])
  }

  lemma EnlistedInv(S: Sockets, fds: PollFds, scanpos: nat, fd: nat, op: Op, e: Event)
    requires Inv(S, fds, scanpos) && |fds| + 1 < SIZE_MAX
    requires fd < |S| && Slot(S[fd], op).None?
    ensures S[fd].pollpos == SIZE_MAX || S[fd].pollpos < |fds|
    ensures var r := Enlisted(S, fds, fd, op, e); Inv(r.0, r.1, scanpos)
  {
    assert S[fd].pollpos == SIZE_MAX ==> forall j :: 0 <= j < |fds| ==> fds[j].fd != fd;
  }

  lemma EnlistedRefines(S: Sockets, fds: PollFds, fd: nat, op: Op, e: Event, m: Registrations)
    requires fd < |S| && (S[fd].pollpos == SIZE_MAX || S[fd].pollpos < |fds|)
    requires Refines(S, m)
    ensures Refines(Enlisted(S, fds, fd, op, e).0, m[(fd, op) := e])
  {
    var S' := Enlisted(S, fds, fd, op, e).0;
    forall f: nat, o: Op
      ensures Lookup(S', f, o) == if (f, o) in m[(fd, op) := e] then Some(m[(fd, op) := e][(f, o)]) else None
    {
      assert Lookup(S', f, o) == if f == fd && o == op then Some(e) else Lookup(S, f, o);
    }
  }

  lemma EnlistedJustified(S: Sockets, fds: PollFds, scanpos: nat, fd: nat, op: Op, e: Event,
                          reports: map<nat, Mask>, polled: Registrations, now: Registrations)
    requires Inv(S, fds, scanpos) && fd < |S| && Slot(S[fd], op).None?
    requires AllJustified(fds, reports, polled, now)
    requires S[fd].pollpos == SIZE_MAX || S[fd].pollpos < |fds|
    ensures AllJustified(Enlisted(S, fds, fd, op, e).1, reports, polled, now[(fd, op) := e])
  {
    var fds' := Enlisted(S, fds, fd, op, e).1;
    forall j, o | 0 <= j < |fds'| && Has(fds'[j].revents, o)
      ensures Justified(reports, polled, now[(fd, op) := e], fds'[j].fd, o)
    {
      assert j < |fds| && Has(fds[j].revents, o);
      assert Justified(reports, polled, now, fds[j].fd, o);
      assert (fds[j].fd, o) != (fd, op);
    }
  }

  // -------------------------------------------------------------------------- polling

  /** One return of poll(2). */
  datatype Poll = Completed(revents: seq<Mask>) | Interrupted(requested: bool) | Failed

  /** The revents poll may store: wanted events, and ERR or HUP. */
  predicate PollContract(fds: PollFds, revents: seq<Mask>) {
    && |revents| == |fds|
    && (forall j :: 0 <= j < |fds| ==> (revents[j].rd ==> fds[j].events.rd) && (revents[j].wr ==> fds[j].events.wr))
  }

  function Polled(fds: PollFds, revents: seq<Mask>): (r: PollFds)
    requires |revents| == |fds|
    ensures |r| == |fds|
  {
    seq(|fds|, j requires 0 <= j < |fds| => fds[j].(revents := revents[j]))
  }

  /** What a completed poll says, by descriptor. */
  ghost function Reports(fds: PollFds): map<nat, Mask>
    requires forall i, j :: 0 <= i < j < |fds| ==> fds[i].fd != fds[j].fd
  {
    map j | 0 <= j < |fds| :: fds[j].fd := fds[j].revents
  }

  function ScanStart(nfds: nat): nat {
    if nfds == 0 then SIZE_MAX else nfds - 1
  }

  // --------------------------------------------------------------------------- getting

  /** The pollfd that a scan from scanpos stops at. */
  ghost predicate FirstReady(fds: PollFds, scanpos: nat, j: nat) {
    && scanpos < |fds| && j <= scanpos && fds[j].revents != NOTHING
    && (forall i :: j < i <= scanpos ==> fds[i].revents == NOTHING)
  }

  ghost predicate NoneReady(fds: PollFds, scanpos: nat) {
    scanpos < |fds| ==> forall j :: 0 <= j <= scanpos ==> fds[j].revents == NOTHING
  }

  /** ERR or HUP stands for every operation that is wanted. */
  function Effective(p: PollFd): Mask {
    if p.revents.err || p.revents.hup then
      Mask(p.revents.rd || p.events.rd, p.revents.wr || p.events.wr, p.events.err, p.events.hup)
    else p.revents
  }

  /** A listed descriptor always has an event registered. */
  lemma ListedHasEvent(S: Sockets, fds: PollFds, scanpos: nat, j: nat)
    requires Inv(S, fds, scanpos) && j < |fds|
    ensures fds[j].events.rd || fds[j].events.wr
    ensures forall op :: Has(fds[j].events, op) == Slot(S[fds[j].fd], op).Some?
  {
  }

  lemma EffectiveInv(S: Sockets, fds: PollFds, scanpos: nat, j: nat,
                     reports: map<nat, Mask>, polled: Registrations, now: Registrations)
    requires Inv(S, fds, scanpos) && j < |fds| && j <= scanpos
    requires AllJustified(fds, reports, polled, now)
    ensures Inv(S, fds[j := fds[j].(revents := Effective(fds[j]))], scanpos)
    ensures AllJustified(fds[j := fds[j].(revents := Effective(fds[j]))], reports, polled, now)
  {
  }

  /** A completed poll justifies exactly what it reported. */
  lemma PolledInv(S: Sockets, fds: PollFds, scanpos: nat, revents: seq<Mask>, m: Registrations)
    requires Inv(S, fds, scanpos) && Refines(S, m) && PollContract(fds, revents)
    ensures forall i, j :: 0 <= i < j < |fds| ==> fds[i].fd != fds[j].fd
    ensures Inv(S, Polled(fds, revents), ScanStart(|fds|))
    ensures AllJustified(Polled(fds, revents), Reports(Polled(fds, revents)), m, m)
  {
    var fds' := Polled(fds, revents);
    var reports := Reports(fds');
    forall j | 0 <= j < |fds'|
      ensures Reported(reports, fds'[j].fd) == fds'[j].revents
      ensures forall op :: Has(fds'[j].revents, op) ==> (fds'[j].fd, op) in m
    {
      ListedHasEvent(S, fds, scanpos, j);
      forall op | Has(fds'[j].revents, op)
        ensures (fds'[j].fd, op) in m
      {
        assert Lookup(S, fds[j].fd, op).Some?;
      }
    }
  }

  /** Right after a poll, a scan finds nothing exactly when nothing was reported. */
  lemma FreshScan(fds: PollFds)
    requires |fds| < SIZE_MAX
    ensures NoneReady(fds, ScanStart(|fds|)) <==> forall j :: 0 <= j < |fds| ==> fds[j].revents == NOTHING
  {
    if |fds| > 0 && NoneReady(fds, ScanStart(|fds|)) {
      forall j | 0 <= j < |fds|
        ensures fds[j].revents == NOTHING
      {
        assert j <= ScanStart(|fds|);
      }
    }
  }

  /** Invariant 6 as the source words it, with a strict inequality. */
  ghost predicate StrictlyScannable(fds: PollFds, scanpos: nat) {
    forall j :: 0 <= j < |fds| && fds[j].revents != NOTHING ==> j < scanpos
  }

  /** In every state the strict wording holds exactly when the entry under the cursor is not ready. */
  lemma StrictWording(S: Sockets, fds: PollFds, scanpos: nat)
    requires Inv(S, fds, scanpos)
    ensures StrictlyScannable(fds, scanpos) <==> (scanpos < |fds| ==> fds[scanpos].revents == NOTHING)
  {
  }

  ghost predicate SomeReady(fds: PollFds) {
    exists j :: 0 <= j < |fds| && fds[j].revents != NOTHING
  }

  /** In every state a scan finds nothing exactly when nothing is ready or the cursor is beyond the array. */
  lemma ScanFindsNothing(S: Sockets, fds: PollFds, scanpos: nat)
    requires Inv(S, fds, scanpos)
    ensures NoneReady(fds, scanpos) <==> scanpos >= |fds| || !SomeReady(fds)
  {
  }

  /** A bit that is cleared leaves the cursor beyond the array exactly when the entry it was on, the last one, goes. */
  lemma CursorLeftBehind(S: Sockets, fds: PollFds, scanpos: nat, fd: nat, op: Op)
    requires Inv(S, fds, scanpos) && scanpos < |fds| && fd < |S| && Slot(S[fd], op).Some?
    ensures Owns(S, fds, fd, S[fd].pollpos)
    ensures var fds' := Cleared(S[fd := SetSlot(S[fd], op, None)], fds, S[fd].pollpos, op).1;
      scanpos >= |fds'| <==> scanpos == |fds| - 1 && Without(fds[S[fd].pollpos].events, op) == NOTHING
  {
    Owner(S, fds, scanpos, fd, op);
  }

  /** Whatever is registered is in the array, with the bit that asks poll for it. */
  lemma StillPolled(S: Sockets, fds: PollFds, scanpos: nat, m: Registrations, fd: nat, op: Op)
    requires Inv(S, fds, scanpos) && Refines(S, m) && (fd, op) in m
    ensures fd < |S| && S[fd].pollpos < |fds| && fds[S[fd].pollpos].fd == fd && Has(fds[S[fd].pollpos].events, op)
  {
    assert Lookup(S, fd, op).Some?;
    ListedHasEvent(S, fds, scanpos, S[fd].pollpos);
  }

  /**
   Nothing is lost: whatever a scan has left, a registration that a later poll reports is found by the
   scan that follows; if the poll reports nothing above it, it is found first.
   */
  lemma ReportedIsFound(S: Sockets, fds: PollFds, scanpos: nat, m: Registrations, fd: nat, op: Op, revents: seq<Mask>)
    requires Inv(S, fds, scanpos) && Refines(S, m) && (fd, op) in m && PollContract(fds, revents)
    requires fd < |S| && S[fd].pollpos < |fds| && (Has(revents[S[fd].pollpos], op) || revents[S[fd].pollpos].err || revents[S[fd].pollpos].hup)
    ensures var fds' := Polled(fds, revents); var j := S[fd].pollpos;
      && !NoneReady(fds', ScanStart(|fds'|)) && fds'[j].fd == fd && Has(Effective(fds'[j]), op)
      && ((forall i :: j < i < |fds'| ==> revents[i] == NOTHING) ==> FirstReady(fds', ScanStart(|fds'|), j))
  {
    StillPolled(S, fds, scanpos, m, fd, op);
    FreshScan(Polled(fds, revents));
    assert Polled(fds, revents)[S[fd].pollpos].revents != NOTHING;
  }

  /** The tables of an array of sockets 0 and 1 waiting to be read, with events 7 and 8. */
  lemma TwoReaders()
    ensures var (S1, fds1) := Enlisted(Grown([], 1), [], 0, Read, 7);
      && Grown(S1, 2)[1].pollpos == SIZE_MAX
      && var (S2, fds2) := Enlisted(Grown(S1, 2), fds1, 1, Read, 8);
         && S2 == [SocketRec(Some(7), None, 0), SocketRec(Some(8), None, 1)]
         && fds2 == [PollFd(0, With(NOTHING, Read), NOTHING), PollFd(1, With(NOTHING, Read), NOTHING)]
  {
    assert Grown([], 1) == [BLANK];
    var (S1, fds1) := Enlisted([BLANK], [], 0, Read, 7);
    assert S1 == [SocketRec(Some(7), None, 0)] && fds1 == [PollFd(0, With(NOTHING, Read), NOTHING)];
    assert Grown(S1, 2) == [SocketRec(Some(7), None, 0), BLANK];
  }

  /**
   Register two readers, poll both as ready, get the one that is scanned first: then a scan finds
   nothing, although socket 0 is ready, still registered, and found again after the next poll.
   */
  lemma StalledScan()
    ensures var S := [SocketRec(Some(7), None, 0), SocketRec(Some(8), None, 1)];
      var ready := With(NOTHING, Read);
      var fds := Polled([PollFd(0, ready, NOTHING), PollFd(1, ready, NOTHING)], [ready, ready]);
      && Inv(S, fds, 1) && FirstReady(fds, ScanStart(2), 1)
      && var (S', fds') := Cleared(S[1 := SetSlot(S[1], Read, None)], fds, 1, Read);
         && Inv(S', fds', 1) && NoneReady(fds', 1) && SomeReady(fds') && Slot(S'[0], Read) == Some(7)
  {
    var S := [SocketRec(Some(7), None, 0), SocketRec(Some(8), None, 1)];
    var ready := With(NOTHING, Read);
    var fds := Polled([PollFd(0, ready, NOTHING), PollFd(1, ready, NOTHING)], [ready, ready]);
    assert fds == [PollFd(0, ready, ready), PollFd(1, ready, ready)];
    var (S', fds') := Cleared(S[1 := SetSlot(S[1], Read, None)], fds, 1, Read);
    assert fds' == [PollFd(0, ready, ready)];
    assert S' == [SocketRec(Some(7), None, 0), BLANK];
    assert fds'[0].revents != NOTHING;
  }

  // --------------------------------------------------------------------------- what is ready

  /** The operation is reported for the entry, or wanted while ERR or HUP is reported. */
  predicate Due(p: PollFd, op: Op) {
    Has(p.revents, op) || (Has(p.events, op) && (p.revents.err || p.revents.hup))
  }

  lemma EffectiveIsDue(p: PollFd, op: Op)
    ensures Has(Effective(p), op) <==> Due(p, op)
  {
  }

  /** The registrations that are ready. */
  ghost function ReadySet(fds: PollFds): set<(nat, Op)> {
    set j, op: Op | 0 <= j < |fds| && Due(fds[j], op) :: (fds[j].fd, op)
  }

  lemma IsReady(fds: PollFds, j: nat, op: Op)
    requires j < |fds| && Due(fds[j], op)
    ensures (fds[j].fd, op) in ReadySet(fds)
  {
  }

  /** ERR or HUP is reported for the descriptor. */
  ghost predicate HungUp(fds: PollFds, fd: nat) {
    exists j :: 0 <= j < |fds| && fds[j].fd == fd && (fds[j].revents.err || fds[j].revents.hup)
  }

  /** Nothing is ready exactly if no entry is marked. */
  lemma NothingIsReady(S: Sockets, fds: PollFds, scanpos: nat)
    requires Inv(S, fds, scanpos)
    ensures ReadySet(fds) == {} <==> forall j :: 0 <= j < |fds| ==> fds[j].revents == NOTHING
  {
    if ReadySet(fds) == {} {
      forall j | 0 <= j < |fds|
        ensures fds[j].revents == NOTHING
      {
        ListedHasEvent(S, fds, scanpos, j);
        if Due(fds[j], Read) {
          IsReady(fds, j, Read);
        } else if Due(fds[j], Write) {
          IsReady(fds, j, Write);
        }
      }
    }
  }

  /** An entry after one of its bits has been cleared. */
  function ClearedEntry(p: PollFd, op: Op): PollFd {
    p.(events := Without(p.events, op), revents := Without(p.revents, op))
  }

  lemma ClearedEntryReady(p: PollFd, op: Op)
    requires (p.revents.rd ==> p.events.rd) && (p.revents.wr ==> p.events.wr)
    ensures forall o :: Due(ClearedEntry(p, op), o) <==> o != op && Due(p, o)
    ensures Without(p.events, op) == NOTHING && !p.events.err && !p.events.hup ==> forall o :: o != op ==> !Due(p, o)
  {
  }

  /** The entry at position j loses the bit of op, and with its last bit its place, which the last entry takes. */
  ghost predicate Vacated(before: PollFds, after: PollFds, j: nat, op: Op) {
    j < |before| &&
    if Without(before[j].events, op) != NOTHING then
      && |after| == |before| && after[j].fd == before[j].fd && after[j].events == Without(before[j].events, op)
      && forall i :: 0 <= i < |before| && i != j ==> after[i] == before[i]
    else
      && |after| == |before| - 1 && (j < |after| ==> after[j] == before[|after|])
      && forall i :: 0 <= i < |after| && i != j ==> after[i] == before[i]
  }

  lemma ClearedVacated(S: Sockets, fds: PollFds, fd: nat, op: Op)
    requires fd < |S| && Owns(S, fds, fd, S[fd].pollpos)
    ensures Vacated(fds, Cleared(S[fd := SetSlot(S[fd], op, None)], fds, S[fd].pollpos, op).1, S[fd].pollpos, op)
  {
  }

  /** A registration that is dropped is no longer ready, and all others are ready as before. */
  lemma ClearedReady(S: Sockets, fds: PollFds, scanpos: nat, fd: nat, op: Op)
    requires Scannable(fds, scanpos) && fd < |S| && Owns(S, fds, fd, S[fd].pollpos)
    ensures ReadySet(Cleared(S[fd := SetSlot(S[fd], op, None)], fds, S[fd].pollpos, op).1) == ReadySet(fds) - {(fd, op)}
  {
    var pos := S[fd].pollpos;
    var fds' := Cleared(S[fd := SetSlot(S[fd], op, None)], fds, pos, op).1;
    ClearedEntryReady(fds[pos], op);
    forall key | key in ReadySet(fds) - {(fd, op)}
      ensures key in ReadySet(fds')
    {
      var j :| 0 <= j < |fds| && Due(fds[j], key.1) && fds[j].fd == key.0;
      IsReady(fds', if |fds'| < |fds| && j == |fds'| then pos else j, key.1);
    }
    forall key | key in ReadySet(fds')
      ensures key in ReadySet(fds) - {(fd, op)}
    {
      var j :| 0 <= j < |fds'| && Due(fds'[j], key.1) && fds'[j].fd == key.0;
      IsReady(fds, if |fds'| < |fds| && j == pos then |fds'| else j, key.1);
    }
  }

  /** Turning ERR and HUP into what is wanted changes nothing. */
  lemma EffectiveReady(fds: PollFds, scanpos: nat, j: nat)
    requires Scannable(fds, scanpos) && j < |fds|
    ensures ReadySet(fds[j := fds[j].(revents := Effective(fds[j]))]) == ReadySet(fds)
  {
    var fds' := fds[j := fds[j].(revents := Effective(fds[j]))];
    assert forall i :: 0 <= i < |fds| ==> fds'[i].fd == fds[i].fd && forall o :: Due(fds'[i], o) == Due(fds[i], o);
  }

  /** A registration that is added is ready exactly if ERR or HUP is reported for its descriptor. */
  lemma EnlistedReady(S: Sockets, fds: PollFds, scanpos: nat, fd: nat, op: Op, e: Event)
    requires Inv(S, fds, scanpos) && fd < |S| && Slot(S[fd], op).None? && (S[fd].pollpos == SIZE_MAX || S[fd].pollpos < |fds|)
    ensures ReadySet(Enlisted(S, fds, fd, op, e).1) == ReadySet(fds) + if HungUp(fds, fd) then {(fd, op)} else {}
  {
    var fds' := Enlisted(S, fds, fd, op, e).1;
    forall key | key in ReadySet(fds)
      ensures key in ReadySet(fds')
    {
      var j :| 0 <= j < |fds| && Due(fds[j], key.1) && fds[j].fd == key.0;
      IsReady(fds', j, key.1);
    }
    if HungUp(fds, fd) {
      var j :| 0 <= j < |fds| && fds[j].fd == fd && (fds[j].revents.err || fds[j].revents.hup);
      IsReady(fds', j, op);
    }
    forall key | key in ReadySet(fds')
      ensures key in ReadySet(fds) || (key == (fd, op) && HungUp(fds, fd))
    {
      var j :| 0 <= j < |fds'| && Due(fds'[j], key.1) && fds'[j].fd == key.0;
      if key != (fd, op) {
        IsReady(fds, j, key.1);
      }
    }
  }

  // --------------------------------------------------------------------------- runs of gets

  /** What is ready of the last entry. */
  ghost function TopReady(fds: PollFds): set<(nat, Op)> {
    if fds == [] then {}
    else var p := fds[|fds| - 1]; set op: Op | Due(p, op) :: (p.fd, op)
  }

  /** Everything that is wanted of the last entry is ready. */
  ghost predicate TopExhausted(fds: PollFds) {
    fds != [] && var p := fds[|fds| - 1]; forall op :: Has(p.events, op) ==> Due(p, op)
  }

  /** What a run of gets after a poll returns: all that is ready, or only what is ready of the last entry. */
  ghost function Obtained(fds: PollFds): set<(nat, Op)> {
    if TopExhausted(fds) then TopReady(fds) else ReadySet(fds)
  }

  /** So far only the last entry was scanned, and it still has a place. */
  ghost predicate AtTop(fds0: PollFds, fds: PollFds, scanpos: nat, got: set<(nat, Op)>) {
    && fds0 != [] && |fds| == |fds0| && scanpos == |fds| - 1 && got <= TopReady(fds0)
    && fds[scanpos].fd == fds0[scanpos].fd
    && forall op :: Has(fds[scanpos].events, op) <==> Has(fds0[scanpos].events, op) && (fds0[scanpos].fd, op) !in got
  }

  /** The cursor is within the array, and the last entry is not ready. */
  ghost predicate Below(fds0: PollFds, fds: PollFds, scanpos: nat) {
    !TopExhausted(fds0) && scanpos < |fds| && fds[|fds| - 1].revents == NOTHING
  }

  /** The last entry has gone, and the cursor is beyond the array. */
  ghost predicate Stalled(fds0: PollFds, fds: PollFds, scanpos: nat, got: set<(nat, Op)>) {
    TopExhausted(fds0) && got == TopReady(fds0) && scanpos >= |fds|
  }

  /** How far a run of gets has come that started with the entries fds0. */
  ghost predicate Scanning(fds0: PollFds, fds: PollFds, scanpos: nat, got: set<(nat, Op)>) {
    && Scannable(fds, scanpos) && got <= ReadySet(fds0) && ReadySet(fds) == ReadySet(fds0) - got
    && ((fds0 == fds == []) || AtTop(fds0, fds, scanpos, got) || Below(fds0, fds, scanpos) || Stalled(fds0, fds, scanpos, got))
  }

  ghost predicate WellMasked(fds: PollFds) {
    forall j :: 0 <= j < |fds| ==>
      (fds[j].revents.rd ==> fds[j].events.rd) && (fds[j].revents.wr ==> fds[j].events.wr) && !fds[j].events.err && !fds[j].events.hup
  }

  /** The last entry's ready operations are among those that are ready, and wanted. */
  lemma TopIsReady(fds: PollFds)
    requires WellMasked(fds)
    ensures TopReady(fds) <= ReadySet(fds)
    ensures fds != [] ==>
      var p := fds[|fds| - 1];
      forall op :: ((p.fd, op) in TopReady(fds) <==> Due(p, op)) && (Due(p, op) ==> Has(p.events, op))
  {
  }

  /** With no two entries for a descriptor, what is ready of it is ready in its entry. */
  lemma ReadyInEntry(fds: PollFds, j: nat, op: Op)
    requires j < |fds| && (forall a, b :: 0 <= a < b < |fds| ==> fds[a].fd != fds[b].fd) && (fds[j].fd, op) in ReadySet(fds)
    ensures Due(fds[j], op)
  {
  }

  /** A get that returns an event of the last entry. */
  lemma StepAtTop(fds0: PollFds, fds: PollFds, scanpos: nat, got: set<(nat, Op)>, fds': PollFds, op: Op)
    requires WellMasked(fds0) && AtTop(fds0, fds, scanpos, got) && Vacated(fds, fds', scanpos, op)
    requires (fds[scanpos].fd, op) in ReadySet(fds0) && forall a, b :: 0 <= a < b < |fds0| ==> fds0[a].fd != fds0[b].fd
    ensures AtTop(fds0, fds', scanpos, got + {(fds[scanpos].fd, op)}) || Stalled(fds0, fds', scanpos, got + {(fds[scanpos].fd, op)})
  {
    var n := |fds0| - 1;
    TopIsReady(fds0);
    ReadyInEntry(fds0, n, op);
    if Without(fds[n].events, op) == NOTHING {
      forall o | Has(fds0[n].events, o)
        ensures (fds0[n].fd, o) in got + {(fds[n].fd, op)}
      {
        assert Has(fds[n].events, o) ==> o == op;
      }
      assert got + {(fds[n].fd, op)} == TopReady(fds0);
    }
  }

  /** The first get that returns an event of an entry before the last. */
  lemma StepFromTop(fds0: PollFds, fds: PollFds, scanpos: nat, got: set<(nat, Op)>)
    requires AtTop(fds0, fds, scanpos, got) && ReadySet(fds) == ReadySet(fds0) - got
    requires fds[scanpos].revents == NOTHING && (fds[scanpos].events.rd || fds[scanpos].events.wr)
    requires forall a, b :: 0 <= a < b < |fds| ==> fds[a].fd != fds[b].fd
    ensures Below(fds0, fds, scanpos)
  {
    var op := if fds[scanpos].events.rd then Read else Write;
    if Due(fds0[scanpos], op) {
      IsReady(fds0, scanpos, op);
      ReadyInEntry(fds, scanpos, op);
    }
  }

  /** Below the last entry, a get never leaves the cursor beyond the array. */
  lemma StepBelow(fds0: PollFds, fds: PollFds, scanpos: nat, fds': PollFds, j: nat, op: Op)
    requires Below(fds0, fds, scanpos) && FirstReady(fds, scanpos, j) && Scannable(fds, scanpos) && Vacated(fds, fds', j, op)
    ensures Below(fds0, fds', j)
  {
    if |fds'| < |fds| {
      assert j < |fds'|;
      assert fds'[|fds'| - 1] == if j == |fds'| - 1 then fds[|fds'|] else fds[|fds'| - 1];
    }
  }

  /** A get that returns nothing ends a run that has obtained what it can. */
  lemma RunEnds(fds0: PollFds, fds: PollFds, scanpos: nat, got: set<(nat, Op)>)
    requires WellMasked(fds0) && Scanning(fds0, fds, scanpos, got) && NoneReady(fds, scanpos)
    ensures got == Obtained(fds0)
  {
    TopIsReady(fds0);
    if !Stalled(fds0, fds, scanpos, got) {
      assert forall j :: 0 <= j < |fds| ==> fds[j].revents == NOTHING;
      assert ReadySet(fds) == {};
      forall key | key in ReadySet(fds0)
        ensures key in got
      {
        assert key !in ReadySet(fds0) - got;
      }
    }
  }

  // --------------------------------------------------------------------------- histories

  /** What happened to a registration; polls and failed calls leave no trace. */
  datatype Step = Registered(key: (nat, Op), e: Event) | Cancelled(key: (nat, Op)) | Returned(key: (nat, Op), e: Event)

  function Apply(m: Registrations, step: Step): Registrations {
    if step.Registered? then m[step.key := step.e] else m - {step.key}
  }

  predicate Enabled(m: Registrations, step: Step) {
    match step
    case Registered(key, _) => key !in m
    case Cancelled(key) => key in m
    case Returned(key, e) => key in m && m[key] == e
  }

  function After(history: seq<Step>): Registrations {
    if history == [] then map[] else Apply(After(history[..|history| - 1]), history[|history| - 1])
  }

  ghost predicate Legal(history: seq<Step>) {
    history != [] ==>
      && Legal(history[..|history| - 1])
      && Enabled(After(history[..|history| - 1]), history[|history| - 1])
  }

  ghost predicate Recorded(history: seq<Step>, m: Registrations) {
    Legal(history) && m == After(history)
  }

  lemma RecordStep(history: seq<Step>, m: Registrations, step: Step)
    requires Recorded(history, m) && Enabled(m, step)
    ensures Recorded(history + [step], Apply(m, step))
  {
    assert (history + [step])[..|history|] == history;
  }

  /** Step i is the last one before n that concerns key. */
  ghost predicate LastBefore(history: seq<Step>, n: nat, key: (nat, Op), i: nat) {
    i < n <= |history| && history[i].key == key && forall k :: i < k < n ==> history[k].key != key
  }

  /** A registration is present exactly when the last step concerning its key registered it. */
  lemma {:induction false} PresentSince(history: seq<Step>, key: (nat, Op)) returns (i: nat)
    requires Legal(history)
    ensures key in After(history) ==> LastBefore(history, |history|, key, i) && history[i] == Registered(key, After(history)[key])
    ensures key !in After(history) && (exists k :: 0 <= k < |history| && history[k].key == key) ==>
      LastBefore(history, |history|, key, i) && !history[i].Registered?
  {
    i := 0;
    if history != [] {
      var n := |history| - 1;
      var h := history[..n];
      if history[n].key == key {
        i := n;
      } else {
        i := PresentSince(h, key);
        assert forall k :: 0 <= k < n ==> history[k] == h[k];
        if exists k :: 0 <= k < |history| && history[k].key == key {
          var k :| 0 <= k < |history| && history[k].key == key;
          assert h[k].key == key;
        }
      }
    }
  }

  lemma {:induction false} LegalPrefix(history: seq<Step>, n: nat)
    requires Legal(history) && n <= |history|
    ensures Legal(history[..n])
  {
    if n < |history| {
      LegalPrefix(history[..|history| - 1], n);
      assert history[..|history| - 1][..n] == history[..n];
    } else {
      assert history[..n] == history;
    }
  }

  /** Safety over whole runs: what is returned was registered, and neither cancelled nor returned since. */
  lemma ReturnedOnce(history: seq<Step>, n: nat) returns (i: nat)
    requires Legal(history) && n < |history| && history[n].Returned?
    ensures LastBefore(history, n, history[n].key, i) && history[i] == Registered(history[n].key, history[n].e)
  {
    LegalPrefix(history, n + 1);
    LegalPrefix(history, n);
    assert history[..n + 1][..n] == history[..n];
    i := PresentSince(history[..n], history[n].key);
  }

  datatype Status = Success | BadDescriptor | BadOperation | Exists | NoEntry | NoMemory

  /** Decode the op argument: 0 is EVENTS_NETWORK_OP_READ, 1 is EVENTS_NETWORK_OP_WRITE. */
  function DecodeOp(op: int): Op
    requires op == 0 || op == 1
  {
    if op == 0 then Read else Write
  }

  /** Which of the allocations of a registration succeed. */
  datatype Allocations = Allocations(list: bool, rec: bool, poll: bool)

  class Network {
    var S: Sockets
    var fds: PollFds  // the initialized entries; nfds is its length
    var fdsAlloc: nat
    var scanpos: nat  // fdscanpos, a size_t

    ghost var registered: Registrations  // the abstract state
    ghost var reports: map<nat, Mask>    // the last completed poll
    ghost var polled: Registrations      // what was registered when it ran
    ghost var history: seq<Step>         // everything since init()

    /** The tables keep their invariants and refine the map of registrations. */
    ghost predicate Consistent()
      reads this
    {
      && fdsAlloc >= 16 && |fds| <= fdsAlloc <= SIZE_MAX / SIZEOF_POLLFD
      && Inv(S, fds, scanpos) && Refines(S, registered)
      && AllJustified(fds, reports, polled, registered)
    }

    ghost predicate Valid()
      reads this
    {
      Consistent() && Recorded(history, registered)
    }

    /** init() */
    constructor ()
      ensures Valid() && registered == map[] && history == []
    {
      S, fds, fdsAlloc, scanpos := [], [], 16, 0;
      registered, reports, polled, history := map[], map[], map[], [];
    }

    /** Whether the pollfd array has to grow, and may. */
    ghost predicate Full()
      reads this
    {
      fdsAlloc == |fds|
    }

    /** growpollfd(fd): a new entry at the end of the array, with no bits set; a failure changes nothing. */
    method GrowPollFd(fd: nat, alloc: bool) returns (ok: bool)
      requires fdsAlloc >= 16 && |fds| <= fdsAlloc <= SIZE_MAX / SIZEOF_POLLFD && fd < |S| && S[fd].pollpos == SIZE_MAX
      modifies this`S, this`fds, this`fdsAlloc
      ensures |fds| <= fdsAlloc <= SIZE_MAX / SIZEOF_POLLFD && fdsAlloc >= old(fdsAlloc)
      ensures ok <==> !old(Full()) || (alloc && old(fdsAlloc) * 2 <= SIZE_MAX / SIZEOF_POLLFD)
      ensures ok ==> fds == old(fds) + [PollFd(fd, NOTHING, NOTHING)] && S == old(S)[fd := old(S)[fd].(pollpos := |old(fds)|)]
      ensures !ok ==> S == old(S) && fds == old(fds) && fdsAlloc == old(fdsAlloc)
    {
      if fdsAlloc == |fds| {
        var newAlloc := fdsAlloc * 2;
        if newAlloc > SIZE_MAX / SIZEOF_POLLFD || !alloc {
          return false;
        }
        fdsAlloc := newAlloc;
      }
      fds := fds + [PollFd(fd, NOTHING, NOTHING)];
      S := S[fd := S[fd].(pollpos := |fds| - 1)];
      return true;
    }

    /** Store the event record, list the descriptor if it is not listed, and set its poll bit. */
    method Enlist(fd: nat, op: Op, e: Event, alloc: bool) returns (ok: bool)
      requires Consistent() && fd < |S| && Slot(S[fd], op).None?
      modifies this`S, this`fds, this`fdsAlloc, this`registered
      ensures Consistent() && registered == if ok then old(registered)[(fd, op) := e] else old(registered)
      ensures ReadySet(fds) == old(ReadySet(fds)) + if ok && old(HungUp(fds, fd)) then {(fd, op)} else {}
      ensures !ok ==> old(Full()) && (!alloc || old(fdsAlloc) * 2 > SIZE_MAX / SIZEOF_POLLFD)
      ensures old(S[fd].pollpos) != SIZE_MAX ==> ok
    {
      EnlistedInv(S, fds, scanpos, fd, op, e);
      EnlistedRefines(S, fds, fd, op, e, registered);
      EnlistedJustified(S, fds, scanpos, fd, op, e, reports, polled, registered);
      EnlistedReady(S, fds, scanpos, fd, op, e);
      ok := StoreEvent(fd, op, e, alloc);
      if ok {
        registered := registered[(fd, op) := e];
      }
    }

    /** The stores into both tables; a failure takes the event record back. */
    method StoreEvent(fd: nat, op: Op, e: Event, alloc: bool) returns (ok: bool)
      requires fdsAlloc >= 16 && |fds| <= fdsAlloc <= SIZE_MAX / SIZEOF_POLLFD
      requires fd < |S| && Slot(S[fd], op).None? && (S[fd].pollpos == SIZE_MAX || S[fd].pollpos < |fds|)
      modifies this`S, this`fds, this`fdsAlloc
      ensures |fds| <= fdsAlloc <= SIZE_MAX / SIZEOF_POLLFD && fdsAlloc >= old(fdsAlloc)
      ensures (S, fds) == if ok then Enlisted(old(S), old(fds), fd, op, e) else (old(S), old(fds))
      ensures !ok ==> old(Full()) && (!alloc || old(fdsAlloc) * 2 > SIZE_MAX / SIZEOF_POLLFD)
      ensures old(S[fd].pollpos) != SIZE_MAX ==> ok
    {
      ghost var S0, fds0 := S, fds;
      S := S[fd := SetSlot(S[fd], op, Some(e))];
      if S[fd].pollpos == SIZE_MAX {
        ok := GrowPollFd(fd, alloc);
        if !ok {
          S := S[fd := SetSlot(S[fd], op, None)];
          assert S == S0;
          return;
        }
      }
      var pos := S[fd].pollpos;
      fds := fds[pos := fds[pos].(events := With(fds[pos].events, op))];
      assert S == Enlisted(S0, fds0, fd, op, e).0;
      assert fds == Enlisted(S0, fds0, fd, op, e).1;
      ok := true;
    }

    /** Make room for a descriptor in the socket list. */
    method Reserve(fd: nat, alloc: bool) returns (ok: bool)
      requires Consistent()
      modifies this`S
      ensures Consistent()
      ensures ok ==> fd < |S|
      ensures !ok ==> !alloc && fd >= |S| == |old(S)|
    {
      if fd >= |S| {
        if !alloc {
          return false;
        }
        GrownInv(S, fds, scanpos, fd + 1, registered);
        S := Grown(S, fd + 1);
      }
      return true;
    }

    /** events_network_register once its arguments have been checked. */
    method RegisterAt(e: Event, fd: nat, op: Op, alloc: Allocations) returns (status: Status)
      requires Valid()
      modifies this`S, this`fds, this`fdsAlloc, this`registered, this`history
      ensures Valid()
      ensures status == Success || status == Exists || status == NoMemory
      ensures status == Success ==>
        && (fd, op) !in old(registered)
        && registered == old(registered)[(fd, op) := e] && history == old(history) + [Registered((fd, op), e)]
      ensures status == Exists ==> (fd, op) in old(registered)
      ensures status == NoMemory ==>
        && (fd, op) !in old(registered)
        && (alloc != Allocations(true, true, true) || |old(fds)| * 2 > SIZE_MAX / SIZEOF_POLLFD)
      ensures status != Success ==> registered == old(registered) && history == old(history)
      ensures ReadySet(fds) == old(ReadySet(fds)) + if status == Success && old(HungUp(fds, fd)) then {(fd, op)} else {}
    {
      assert Lookup(S, fd, op).Some? <==> (fd, op) in registered;
      var ok := Reserve(fd, alloc.list);
      if !ok {
        return NoMemory;
      }
      assert Lookup(S, fd, op).Some? <==> (fd, op) in registered;
      if Slot(S[fd], op).Some? {
        return Exists;
      }
      if !alloc.rec {
        return NoMemory;
      }
      RecordStep(history, registered, Registered((fd, op), e));
      ok := Enlist(fd, op, e, alloc.poll);
      if !ok {
        return NoMemory;
      }
      history := history + [Registered((fd, op), e)];
      return Success;
    }

    /** events_network_register(func, cookie, s, op); e is the new event record. */
    method Register(e: Event, s: int, op: int, alloc: Allocations) returns (status: Status)
      requires Valid() && s < INT_MAX
      modifies this`S, this`fds, this`fdsAlloc, this`registered, this`history
      ensures Valid()
      ensures status == BadDescriptor <==> s < 0
      ensures status == BadOperation <==> s >= 0 && op != 0 && op != 1
      ensures status == Exists <==> s >= 0 && (op == 0 || op == 1) && (s as nat, DecodeOp(op)) in old(registered)
      ensures status == NoMemory ==> alloc != Allocations(true, true, true) || |old(fds)| * 2 > SIZE_MAX / SIZEOF_POLLFD
      ensures status != NoEntry
      ensures status == Success ==>
        && s >= 0 && (op == 0 || op == 1)
        && registered == old(registered)[(s as nat, DecodeOp(op)) := e]
        && history == old(history) + [Registered((s as nat, DecodeOp(op)), e)]
        && ReadySet(fds) == old(ReadySet(fds)) + if old(HungUp(fds, s)) then {(s as nat, DecodeOp(op))} else {}
      ensures status == Success ==>
        && s < |S| && S[s].pollpos < |fds| && fds[S[s].pollpos].fd == s
        && if op == 0 then S[s].reader == Some(e) && fds[S[s].pollpos].events.rd
           else S[s].writer == Some(e) && fds[S[s].pollpos].events.wr
      ensures status != Success ==> registered == old(registered) && history == old(history) && ReadySet(fds) == old(ReadySet(fds))
    {
      if s < 0 {
        return BadDescriptor;
      }
      if op != 0 && op != 1 {
        return BadOperation;
      }
      status := RegisterAt(e, s, DecodeOp(op), alloc);
      if status == Success {
        StillPolled(S, fds, scanpos, registered, s, DecodeOp(op));
        assert Lookup(S, s, DecodeOp(op)) == Some(e);
      }
    }

    /** clearbit(pollpos, bit) */
    method ClearBit(pos: nat, op: Op)
      requires pos < |fds| && forall j :: 0 <= j < |fds| ==> fds[j].fd < |S|
      modifies this`S, this`fds
      ensures (S, fds) == Cleared(old(S), old(fds), pos, op)
    {
      fds := fds[pos := fds[pos].(events := Without(fds[pos].events, op), revents := Without(fds[pos].revents, op))];
      if fds[pos].events == NOTHING {
        S := S[fds[pos].fd := S[fds[pos].fd].(pollpos := SIZE_MAX)];
        if pos != |fds| - 1 {
          fds := fds[pos := fds[|fds| - 1]];
          S := S[fds[pos].fd := S[fds[pos].fd].(pollpos := pos)];
        }
        fds := fds[..|fds| - 1];
        assert fds == if pos == |old(fds)| - 1 then old(fds)[..|fds|] else old(fds)[..|fds|][pos := old(fds)[|fds|]];
      }
    }

    /** Forget the registration of (fd, op) and clear its poll bit. */
    method Drop(fd: nat, op: Op)
      requires Consistent() && (fd, op) in registered
      modifies this`S, this`fds, this`registered
      ensures Consistent() && registered == old(registered) - {(fd, op)}
      ensures ReadySet(fds) == old(ReadySet(fds)) - {(fd, op)}
      ensures old(fd < |S|) && Vacated(old(fds), fds, old(S[fd].pollpos), op)
    {
      assert Lookup(S, fd, op).Some?;
      ClearedInv(S, fds, scanpos, fd, op);
      ClearedRefines(S, fds, fd, op, registered);
      ClearedJustified(S, fds, fd, op, reports, polled, registered);
      ClearedReady(S, fds, scanpos, fd, op);
      ClearedVacated(S, fds, fd, op);
      RemoveEvent(fd, op);
      registered := registered - {(fd, op)};
    }

    /** The stores into both tables. */
    method RemoveEvent(fd: nat, op: Op)
      requires fd < |S| && Owns(S, fds, fd, S[fd].pollpos)
      modifies this`S, this`fds
      ensures (S, fds) == Cleared(old(S)[fd := SetSlot(old(S)[fd], op, None)], old(fds), old(S)[fd].pollpos, op)
    {
      var pos := S[fd].pollpos;
      S := S[fd := SetSlot(S[fd], op, None)];
      ClearBit(pos, op);
    }

    /** events_network_cancel(s, op) */
    method Cancel(s: int, op: int) returns (status: Status)
      requires Valid()
      modifies this
      ensures Valid() && reports == old(reports) && polled == old(polled) && scanpos == old(scanpos)
      ensures status == BadDescriptor <==> s < 0
      ensures status == BadOperation <==> s >= 0 && op != 0 && op != 1
      ensures status == NoEntry <==> s >= 0 && (op == 0 || op == 1) && (s as nat, DecodeOp(op)) !in old(registered)
      ensures status != Exists && status != NoMemory
      ensures status == Success ==>
        && s >= 0 && (op == 0 || op == 1) && (s as nat, DecodeOp(op)) in old(registered)
        && registered == old(registered) - {(s as nat, DecodeOp(op))}
        && history == old(history) + [Cancelled((s as nat, DecodeOp(op)))]
        && ReadySet(fds) == old(ReadySet(fds)) - {(s as nat, DecodeOp(op))}
      ensures status != Success ==> registered == old(registered) && history == old(history) && fds == old(fds)
    {
      if s < 0 {
        return BadDescriptor;
      }
      if op != 0 && op != 1 {
        return BadOperation;
      }
      var fd: nat, o := s, DecodeOp(op);
      assert Lookup(S, fd, o).Some? <==> (fd, o) in registered;
      if fd >= |S| {
        return NoEntry;
      }
      if Slot(S[fd], o).None? {
        return NoEntry;
      }
      RecordStep(history, registered, Cancelled((fd, o)));
      Drop(fd, o);
      history := history + [Cancelled((fd, o))];
      return Success;
    }

    /** events_network_select(tv, interrupt_requested); polls lists the returns of
        poll(2), all but the last being interruptions nobody asked for. */
    method Select(polls: seq<Poll>) returns (ok: bool)
      requires Valid()
      requires |polls| > 0 && polls[|polls| - 1] != Interrupted(false)
      requires forall k :: 0 <= k < |polls| - 1 ==> polls[k] == Interrupted(false)
      requires polls[|polls| - 1].Completed? ==> PollContract(fds, polls[|polls| - 1].revents)
      modifies this
      ensures Valid() && registered == old(registered) && S == old(S) && history == old(history)
      ensures ok == !polls[|polls| - 1].Failed?
      ensures scanpos == if ok then ScanStart(|fds|) else old(scanpos)
      ensures polls[|polls| - 1].Completed? ==>
        && fds == Polled(old(fds), polls[|polls| - 1].revents) && polled == registered
        && (forall i, j :: 0 <= i < j < |fds| ==> fds[i].fd != fds[j].fd) && reports == Reports(fds)
      ensures !polls[|polls| - 1].Completed? ==> fds == old(fds) && polled == old(polled) && reports == old(reports)
    {
      var k := 0;
      while polls[k] == Interrupted(false)
        invariant 0 <= k < |polls|
        decreases |polls| - k
      {
        k := k + 1;
      }
      assert k == |polls| - 1;
      if polls[k].Failed? {
        return false;
      }
      if polls[k].Completed? {
        PolledInv(S, fds, scanpos, polls[k].revents, registered);
        fds := Polled(fds, polls[k].revents);
        reports, polled := Reports(fds), registered;
      }
      scanpos := ScanStart(|fds|);
      return true;
    }

    /** Hand out the event of the pollfd under the cursor, whose effective state is p. */
    method Take(p: PollFd) returns (r: Option<Event>, ghost key: (nat, Op))
      requires Valid() && scanpos < |fds|
      requires p == fds[scanpos].(revents := Effective(fds[scanpos])) && (p.revents.rd || p.revents.wr)
      modifies this`S, this`fds, this`registered, this`history
      ensures Valid()
      ensures key == (p.fd, if p.revents.rd then Read else Write)
      ensures r.Some? && key in old(registered) && r.value == old(registered)[key]
      ensures registered == old(registered) - {key} && history == old(history) + [Returned(key, r.value)]
      ensures Justified(reports, polled, old(registered), key.0, key.1)
      ensures ReadySet(fds) == old(ReadySet(fds)) - {key} && key in old(ReadySet(fds))
      ensures Vacated(old(fds), fds, scanpos, key.1)
    {
      ListedHasEvent(S, fds, scanpos, scanpos);
      EffectiveReady(fds, scanpos, scanpos);
      EffectiveInv(S, fds, scanpos, scanpos, reports, polled, registered);
      var op := if p.revents.rd then Read else Write;
      IsReady(fds, scanpos, op);
      fds := fds[scanpos := p];
      assert Has(fds[scanpos].revents, op);
      r, key := Slot(S[p.fd], op), (p.fd, op);
      assert Lookup(S, p.fd, op) == r;
      RecordStep(history, registered, Returned(key, r.value));
      Drop(p.fd, op);
      history := history + [Returned(key, r.value)];
    }

    /** events_network_get(); key names the registration that is returned. */
    method Get() returns (r: Option<Event>, ghost key: (nat, Op))
      requires Valid()
      modifies this
      ensures Valid() && reports == old(reports) && polled == old(polled)
      ensures r.None? <==> old(NoneReady(fds, scanpos))
      ensures r.None? ==> fds == old(fds) && registered == old(registered) && history == old(history)
      ensures r.None? ==> scanpos == if old(scanpos) < |fds| then SIZE_MAX else old(scanpos)
      ensures r.Some? ==>
        && key in old(registered) && r.value == old(registered)[key]
        && registered == old(registered) - {key} && history == old(history) + [Returned(key, r.value)]
        && Justified(reports, polled, old(registered), key.0, key.1)
      ensures r.Some? ==>
        && FirstReady(old(fds), old(scanpos), scanpos) && key.0 == old(fds)[scanpos].fd
        && key.1 == (if Due(old(fds)[scanpos], Read) then Read else Write)
        && Vacated(old(fds), fds, scanpos, key.1)
      ensures ReadySet(fds) == old(ReadySet(fds)) - (if r.Some? then {key} else {})
      ensures r.Some? ==> key in old(ReadySet(fds))
    {
      key := (0, Read);
      r := None;
      var p := FindReady();
      if p.Some? {
        r, key := Take(p.value);
      }
    }

    /** The loop of events_network_get: where the scan stops, with the entry as it is used there. */
    method FindReady() returns (p: Option<PollFd>)
      requires Valid()
      modifies this`scanpos
      ensures Valid() && (p.None? <==> NoneReady(fds, old(scanpos)))
      ensures p.None? ==> scanpos == if old(scanpos) < |fds| then SIZE_MAX else old(scanpos)
      ensures p.Some? ==>
        && FirstReady(fds, old(scanpos), scanpos) && p.value == fds[scanpos].(revents := Effective(fds[scanpos]))
        && (p.value.revents.rd || p.value.revents.wr)
    {
      while scanpos < |fds|
        invariant Valid() && (scanpos < |fds| ==> scanpos <= old(scanpos) < |fds|)
        invariant scanpos >= |fds| ==> scanpos == if old(scanpos) < |fds| then SIZE_MAX else old(scanpos)
        invariant old(scanpos) < |fds| ==>
          forall j :: 0 <= j <= old(scanpos) && (scanpos < |fds| ==> scanpos < j) ==> fds[j].revents == NOTHING
        decreases if scanpos < |fds| then scanpos + 1 else 0
      {
        ListedHasEvent(S, fds, scanpos, scanpos);
        var q := fds[scanpos];
        if q.revents.err || q.revents.hup {
          q := q.(revents := Effective(q));
        }
        if q.revents.rd || q.revents.wr {
          return Some(q);
        }
        assert fds[scanpos].revents == NOTHING;
        scanpos := if scanpos == 0 then SIZE_MAX else scanpos - 1;
      }
      p := None;
    }
  }

  /**
   A poll and the first get after it: nothing is returned exactly if nothing was reported, and what is
   returned was reported by this very poll, as the operation itself or by ERR or HUP.
   */
  method PollThenGet(net: Network, revents: seq<Mask>) returns (r: Option<Event>, ghost key: (nat, Op), ghost j: nat)
    requires net.Valid() && PollContract(net.fds, revents)
    modifies net
    ensures net.Valid()
    ensures r.None? <==> forall i :: 0 <= i < |revents| ==> revents[i] == NOTHING
    ensures r.None? ==> net.registered == old(net.registered)
    ensures r.Some? ==>
      && j < |revents| && revents[j] != NOTHING && (forall i :: j < i < |revents| ==> revents[i] == NOTHING)
      && key.0 == old(net.fds)[j].fd && (Has(revents[j], key.1) || revents[j].err || revents[j].hup)
      && key in old(net.registered) && r == Some(old(net.registered)[key]) && net.registered == old(net.registered) - {key}
  {
    var ok := net.Select([Completed(revents)]);
    FreshScan(net.fds);
    assert forall i :: 0 <= i < |net.fds| ==> net.fds[i].revents == revents[i];
    r, key, j := GetReported(net);
  }

  /** While the reports on record are those in the array, a get returns what is in the array. */
  method GetReported(net: Network) returns (r: Option<Event>, ghost key: (nat, Op), ghost j: nat)
    requires net.Valid() && (forall a, b :: 0 <= a < b < |net.fds| ==> net.fds[a].fd != net.fds[b].fd) && net.reports == Reports(net.fds)
    modifies net
    ensures net.Valid() && (r.None? <==> old(NoneReady(net.fds, net.scanpos)))
    ensures r.None? ==> net.registered == old(net.registered)
    ensures r.Some? ==>
      && FirstReady(old(net.fds), old(net.scanpos), j) && key.0 == old(net.fds)[j].fd
      && (Has(old(net.fds)[j].revents, key.1) || old(net.fds)[j].revents.err || old(net.fds)[j].revents.hup)
      && key in old(net.registered) && r == Some(old(net.registered)[key]) && net.registered == old(net.registered) - {key}
  {
    ghost var fds, scanpos := net.fds, net.scanpos;
    j := 0;
    r, key := net.Get();
    if r.Some? {
      j := net.scanpos;
      TakenWasReported(fds, net.reports, net.polled, old(net.registered), j, key);
    }
  }

  /** What justifies a return is what the poll stored. */
  lemma TakenWasReported(fds: PollFds, reports: map<nat, Mask>, polled: Registrations, now: Registrations, j: nat, key: (nat, Op))
    requires j < |fds| && (forall a, b :: 0 <= a < b < |fds| ==> fds[a].fd != fds[b].fd) && reports == Reports(fds)
    requires key.0 == fds[j].fd && Justified(reports, polled, now, key.0, key.1)
    ensures Has(fds[j].revents, key.1) || fds[j].revents.err || fds[j].revents.hup
  {
    assert Reported(reports, key.0) == fds[j].revents;
  }

  /** What a scan has left is returned after a poll that reports it, and reports nothing above it. */
  method PollAgain(net: Network, fd: nat, op: Op, revents: seq<Mask>) returns (r: Option<Event>)
    requires net.Valid() && (fd, op) in net.registered && PollContract(net.fds, revents)
    requires fd < |net.S| && net.S[fd].pollpos < |net.fds| && revents[net.S[fd].pollpos] == With(NOTHING, op)
    requires forall i :: net.S[fd].pollpos < i < |net.fds| ==> revents[i] == NOTHING
    modifies net
    ensures net.Valid() && r == Some(old(net.registered)[(fd, op)]) && net.registered == old(net.registered) - {(fd, op)}
  {
    StillPolled(net.S, net.fds, net.scanpos, net.registered, fd, op);
    ghost var pos := net.S[fd].pollpos;
    assert revents[pos] != NOTHING;
    ghost var key, j;
    r, key, j := PollThenGet(net, revents);
    assert j == pos && key == (fd, op);
  }

  ghost predicate Distinct(fds: PollFds) {
    forall i, j :: 0 <= i < j < |fds| ==> fds[i].fd != fds[j].fd
  }

  /** A step of a run of gets that is not the last. */
  lemma ScanStep(fds0: PollFds, fds: PollFds, scanpos: nat, got: set<(nat, Op)>, fds': PollFds, j: nat, op: Op)
    requires WellMasked(fds0) && Distinct(fds0) && Distinct(fds) && Scanning(fds0, fds, scanpos, got)
    requires FirstReady(fds, scanpos, j) && Vacated(fds, fds', j, op) && (fds[j].fd, op) in ReadySet(fds)
    requires forall i :: 0 <= i < |fds| ==> fds[i].events.rd || fds[i].events.wr
    requires Scannable(fds', j) && ReadySet(fds') == ReadySet(fds) - {(fds[j].fd, op)}
    ensures Scanning(fds0, fds', j, got + {(fds[j].fd, op)}) && (fds[j].fd, op) !in got
  {
    if AtTop(fds0, fds, scanpos, got) {
      if j == scanpos {
        StepAtTop(fds0, fds, scanpos, got, fds', op);
      } else {
        StepFromTop(fds0, fds, scanpos, got);
        StepBelow(fds0, fds, scanpos, fds', j, op);
      }
    } else {
      StepBelow(fds0, fds, scanpos, fds', j, op);
    }
    assert ReadySet(fds0) - got - {(fds[j].fd, op)} == ReadySet(fds0) - (got + {(fds[j].fd, op)});
  }

  /** A run of gets that started with the entries fds0 has returned the registrations got. */
  ghost predicate Ongoing(net: Network, fds0: PollFds, got: set<(nat, Op)>)
    reads net
  {
    got <= ReadySet(fds0) && forall b {:trigger Asked(b)} :: Asked(b) ==>
      net.Valid() && WellMasked(fds0) && Distinct(fds0) && Scanning(fds0, net.fds, net.scanpos, got)
  }

  /** The last get of a run has returned NULL. */
  ghost predicate Ended(net: Network, fds0: PollFds, got: set<(nat, Op)>)
    reads net
  {
    net.Valid() && got == Obtained(fds0) && NoneReady(net.fds, net.scanpos) && ReadySet(net.fds) == ReadySet(fds0) - got
  }

  /** One more get of a run. */
  method GetOne(net: Network, ghost fds0: PollFds, ghost got: set<(nat, Op)>) returns (r: Option<Event>, ghost key: (nat, Op))
    requires Ongoing(net, fds0, got)
    modifies net
    ensures r.None? ==> Ended(net, fds0, got) && net.registered == old(net.registered)
    ensures r.Some? ==> key !in got && Ongoing(net, fds0, got + {key})
    ensures r.Some? ==> key in old(net.registered) && r.value == old(net.registered)[key] && net.registered == old(net.registered) - {key}
  {
    assert Asked(true);
    ghost var fds, scanpos := net.fds, net.scanpos;
    forall i | 0 <= i < |fds|
      ensures fds[i].events.rd || fds[i].events.wr
    {
      ListedHasEvent(net.S, fds, scanpos, i);
    }
    r, key := net.Get();
    if r.Some? {
      ScanStep(fds0, fds, scanpos, got, net.fds, net.scanpos, key.1);
    } else {
      RunEnds(fds0, fds, scanpos, got);
    }
  }

  /** Right after a poll a run of gets can begin. */
  lemma ScanBegins(S: Sockets, fds: PollFds)
    requires Inv(S, fds, ScanStart(|fds|))
    ensures WellMasked(fds) && Distinct(fds) && Scanning(fds, fds, ScanStart(|fds|), {})
  {
    if fds != [] {
      assert AtTop(fds, fds, |fds| - 1, {});
    }
  }

  method PollFirst(net: Network, revents: seq<Mask>)
    requires net.Valid() && PollContract(net.fds, revents)
    modifies net
    ensures net.fds == Polled(old(net.fds), revents) && net.registered == old(net.registered) && Ongoing(net, net.fds, {})
  {
    var ok := net.Select([Completed(revents)]);
    ScanBegins(net.S, net.fds);
  }

  /** The registrations keys, all different, with the events they had at the start, are those that are gone. */
  ghost predicate Taken(start: Registrations, now: Registrations, keys: seq<(nat, Op)>, events: seq<Event>, got: set<(nat, Op)>) {
    && |keys| == |events| && got == (set k | k in keys) && now == start - got
    && (forall i, j :: 0 <= i < j < |keys| ==> keys[i] != keys[j])
    && (forall i :: 0 <= i < |keys| ==> keys[i] in start && events[i] == start[keys[i]])
  }

  lemma TakenNext(start: Registrations, now: Registrations, keys: seq<(nat, Op)>, events: seq<Event>, got: set<(nat, Op)>, key: (nat, Op))
    requires Taken(start, now, keys, events, got) && key in now
    ensures Taken(start, now - {key}, keys + [key], events + [now[key]], got + {key})
  {
  }

  /**
   A poll, and gets until NULL: every registration that is ready is returned, once, with its event; unless
   everything wanted of the last entry is ready, in which case only that is returned. What is not
   returned stays registered and ready.
   */
  method GetAll(net: Network, revents: seq<Mask>) returns (events: seq<Event>, ghost keys: seq<(nat, Op)>)
    requires net.Valid() && PollContract(net.fds, revents)
    modifies net
    ensures var fds0 := Polled(old(net.fds), revents);
      Ended(net, fds0, Obtained(fds0)) && Taken(old(net.registered), net.registered, keys, events, Obtained(fds0))
  {
    PollFirst(net, revents);
    ghost var fds0, got := net.fds, {};
    events, keys := [], [];
    var more := true;
    while more
      invariant Taken(old(net.registered), net.registered, keys, events, got)
      invariant if more then Ongoing(net, fds0, got) else Ended(net, fds0, got)
      decreases more, ReadySet(fds0) - got
    {
      ghost var key;
      var r;
      r, key := GetOne(net, fds0, got);
      more := r.Some?;
      if more {
        TakenNext(old(net.registered), old(net.registered) - got, keys, events, got, key);
        assert key in ReadySet(fds0) - got;
        events, keys, got := events + [r.value], keys + [key], got + {key};
      }
    }
  }
}
