/**
 The buffered writer (netbuf/netbuf_write.c): a queue of buffers and at most one
 write in flight. The network takes a buffer and later reports how much it wrote.
 */
module NetbufWrite {
  import opened Octets

  const WBUFLEN: nat := 4096

  /** How a call ends; a sanity check that fails aborts the program. */
  datatype Outcome = Done | Error | Aborted

  class WriteBuf {
    const buflen: nat
    var buf: seq<Octet>
    var datalen: nat

    constructor (buflen: nat)
      ensures this.buflen == buflen && |buf| == buflen && datalen == 0
    {
      this.buflen, datalen := buflen, 0;
      buf := seq<Octet>(buflen, _ => 0);
    }

    /** The buffer holds the octets from a to b of the stream. */
    ghost predicate Holds(stream: seq<Octet>, a: nat, b: nat)
      reads this
    {
      a <= b <= |stream| && |buf| == buflen && datalen == b - a <= buflen && buf[..datalen] == stream[a..b]
    }

    /** WB->datalen += len, after x was stored at the end of the data. */
    method Advance(len: nat, ghost stream: seq<Octet>, ghost a: nat, ghost x: seq<Octet>)
      requires Holds(stream, a, |stream|) && len == |x| && datalen + len <= |buf| && buf[datalen..datalen + len] == x
      modifies this`datalen
      ensures Holds(stream + x, a, |stream + x|)
    {
      assert buf[..datalen + len] == buf[..datalen] + buf[datalen..datalen + len];
      datalen := datalen + len;
      assert (stream + x)[a..|stream + x|] == stream[a..|stream|] + x;
    }
  }

  lemma HoldsLonger(w: WriteBuf, stream: seq<Octet>, a: nat, b: nat, x: seq<Octet>)
    requires w.Holds(stream, a, b)
    ensures w.Holds(stream + x, a, b)
  {
    assert (stream + x)[a..b] == stream[a..b];
  }

  class Writer {
    var reserved: bool
    var failed: bool
    var buffers: seq<WriteBuf>
    var curr: WriteBuf?             // being written; the cookie is set exactly then
    ghost var accepted: seq<Octet>  // the stream: everything consumed before any failure
    ghost var wire: seq<Octet>      // the data of all network writes, in order
    ghost var marks: seq<nat>       // where in the stream each buffer of the queue starts, and the end
    ghost var launched: nat         // where in the stream the last network write started
    ghost var space: nat            // how much the last reservation may use

    /** What went to the network is the start of the stream. */
    ghost predicate InOrder()
      reads this
    {
      marks != [] && marks[0] <= |accepted| && wire == accepted[..marks[0]]
    }

    ghost predicate Valid()
      reads this, buffers, curr
    {
      InOrder() && |marks| == |buffers| + 1 && marks[|buffers|] == |accepted|
      && (forall i :: 0 <= i < |buffers| ==> buffers[i].Holds(accepted, marks[i], marks[i + 1]))
      && (forall i, j :: 0 <= i < j < |buffers| ==> buffers[i] != buffers[j])
      && (curr != null ==> !failed && curr !in buffers && launched < marks[0] && curr.Holds(accepted, launched, marks[0]))
    }

    /** Space is reserved at the end of the last buffer. */
    ghost predicate Granted()
      reads this, buffers
    {
      reserved && buffers != [] && var last := buffers[|buffers| - 1];
      last.datalen + space <= last.buflen
    }

    /** The buffers of the queue hold data, except maybe the last n. */
    ghost predicate Filled(n: nat)
      reads this
    {
      forall i :: 0 <= i < |marks| - 1 - n ==> marks[i] < marks[i + 1]
    }

    /** The next buffer to write is empty. */
    ghost predicate HeadEmpty()
      requires |marks| == |buffers| + 1
      reads this
    {
      buffers != [] && marks[0] == marks[1]
    }

    /** A write that fails to start for lack of memory leaves a buffer with data at the head. */
    ghost predicate Live()
      requires |marks| == |buffers| + 1
      reads this
    {
      curr == null && !failed && !reserved ==> !HeadEmpty()
    }

    /** The last buffer of the queue has no room for len octets. */
    ghost predicate NeedsBuffer(len: nat)
      reads this, buffers
    {
      buffers == [] || var last := buffers[|buffers| - 1]; last.buflen - last.datalen < len
    }

    /** netbuf_write_init(s, fail_callback, fail_cookie) */
    constructor ()
      ensures Valid() && Live() && !reserved && !failed && buffers == [] && curr == null && accepted == []
    {
      reserved, failed, buffers, curr := false, false, [], null;
      accepted, wire, marks, launched, space := [], [], [0], 0, 0;
    }

    /**
     poke(W): starts at most one write, of the next octets, where start says whether memory suffices
     for that; network_write aborts on an empty buffer.
     */
    method Poke(start: bool) returns (r: Outcome)
      requires Valid()
      modifies this`curr, this`buffers, this`marks, this`launched, this`wire
      ensures Valid()
      ensures r == Aborted <==> old(curr) == null && old(buffers) != [] && !failed && old(marks[0] == marks[1])
      ensures (marks == old(marks) && buffers == old(buffers) && curr == old(curr) && launched == old(launched) && wire == old(wire))
              || (r == Done && old(curr) == null && curr != null && !failed && launched == old(marks[0])
                  && marks == old(marks)[1..] && buffers == old(buffers)[1..])
      ensures r == Done && !failed ==> curr != null || buffers == []
      ensures r == Error <==> old(curr) == null && old(buffers) != [] && !failed && old(marks[0] != marks[1]) && !start
      ensures old(curr) != null || old(buffers) == [] || failed ==> r == Done && curr == old(curr) && buffers == old(buffers)
    {
      if curr != null || buffers == [] {
        return Done;
      }
      if failed {
        return Done;
      }
      var WB := buffers[0];
      assert WB.Holds(accepted, marks[0], marks[1]);
      if WB.datalen == 0 {
        return Aborted;
      }
      if !start {
        return Error;
      }
      wire, launched := wire + WB.buf[..WB.datalen], marks[0];
      assert accepted[..marks[1]] == accepted[..marks[0]] + accepted[marks[0]..marks[1]];
      curr := WB;
      buffers := buffers[1..];
      marks := marks[1..];
      return Done;
    }

    /**
     writbuf(W, writelen): anything but a complete write is a failure, for good. It aborts exactly if
     space is reserved, or if the write was complete and the next buffer is empty.
     */
    method Writbuf(writelen: int, start: bool) returns (r: Outcome)
      requires Valid() && curr != null
      modifies this`curr, this`failed, this`buffers, this`marks, this`launched, this`wire
      ensures Valid() && |wire| >= |old(wire)| && (forall i :: 0 <= i < |buffers| ==> buffers[i] in old(buffers))
      ensures r == Aborted <==> reserved || (!failed && old(HeadEmpty()))
      ensures r == Done && !failed ==> if old(buffers) == [] then curr == null && buffers == [] else curr != null && buffers == old(buffers)[1..]
      ensures r == Error ==> !start
      ensures failed == (!reserved && writelen != old(marks[0] - launched))
      ensures failed ==> r == Done && wire == old(wire) && marks == old(marks) && curr == null
      ensures r != Aborted ==> Live()
      ensures old(Filled(0)) ==> Filled(0)
    {
      if reserved {
        return Aborted;
      }
      var WB := curr;
      curr := null;
      if writelen != WB.datalen {
        failed := true;
        return Done;
      }
      r := Poke(start);
    }

    /** A new buffer for this write or WBUFLEN of small writes. */
    method AddBuffer(len: nat)
      requires Valid()
      modifies this`buffers, this`marks
      ensures Valid() && marks == old(marks) + [|accepted|] && buffers[..|old(buffers)|] == old(buffers)
      ensures var last := buffers[|buffers| - 1]; fresh(last) && len <= last.buflen && last.datalen == 0
    {
      var WB := new WriteBuf(if len > WBUFLEN then len else WBUFLEN);
      buffers := buffers + [WB];
      marks := marks + [|accepted|];
    }

    /** netbuf_write_reserve(W, len); a failure leaves the reservation flag set, and a second call aborts. */
    method Reserve(len: nat, alloc: bool) returns (r: Outcome)
      requires Valid()
      modifies this`reserved, this`buffers, this`marks, this`space
      ensures Valid() && reserved
      ensures r == Aborted <==> old(reserved)
      ensures r == Error <==> !old(reserved) && old(NeedsBuffer(len)) && !alloc
      ensures r == Done ==> Granted() && space == len && marks == if old(NeedsBuffer(len)) then old(marks) + [|accepted|] else old(marks)
      ensures r != Done ==> buffers == old(buffers) && marks == old(marks)
      ensures old(buffers) <= buffers && forall i :: 0 <= i < |buffers| ==> buffers[i] in old(buffers) || fresh(buffers[i])
    {
      if reserved {
        return Aborted;
      }
      reserved, space := true, len;
      if buffers != [] {
        var last := buffers[|buffers| - 1];
        assert last.Holds(accepted, marks[|buffers| - 1], marks[|buffers|]);
        if last.buflen - last.datalen >= len {
          return Done;
        }
      }
      if !alloc {
        return Error;
      }
      AddBuffer(len);
      return Done;
    }

    /** The reserved space starts with x. */
    ghost predicate Stored(x: seq<Octet>)
      requires buffers != []
      reads this, buffers
    {
      var last := buffers[|buffers| - 1];
      last.datalen + |x| <= |last.buf| && last.buf[last.datalen..last.datalen + |x|] == x
    }

    /** The caller stores x where the reservation points. */
    method Fill(x: seq<Octet>)
      requires Valid() && Granted() && |x| <= space
      modifies buffers[|buffers| - 1]
      ensures Valid() && Granted() && Stored(x)
    {
      var last := buffers[|buffers| - 1];
      assert last.Holds(accepted, marks[|buffers| - 1], marks[|buffers|]);
      last.buf := last.buf[..last.datalen] + x + last.buf[last.datalen + |x|..];
    }

    /** Count what was stored as data of the last buffer. */
    method Extend(ghost x: seq<Octet>, len: nat)
      requires Valid() && Granted() && len == |x| <= space && Stored(x) && !failed
      modifies this`accepted, this`marks, buffers[|buffers| - 1]
      ensures Valid() && accepted == old(accepted) + x
      ensures marks == old(marks)[|buffers| := |accepted|]
    {
      var n := |buffers| - 1;
      var last := buffers[n];
      assert last.Holds(accepted, marks[n], marks[n + 1]);
      forall i | 0 <= i < n
        ensures buffers[i].Holds(accepted + x, marks[i], marks[i + 1])
      {
        HoldsLonger(buffers[i], accepted, marks[i], marks[i + 1], x);
      }
      if curr != null {
        HoldsLonger(curr, accepted, launched, marks[0], x);
      }
      last.Advance(len, accepted, marks[n], x);
      assert (accepted + x)[..marks[0]] == accepted[..marks[0]];
      accepted := accepted + x;
      marks := marks[n + 1 := |accepted|];
    }

    /** netbuf_write_consume(W, len), where x is what the caller has stored. */
    method Consume(ghost x: seq<Octet>, len: nat, start: bool) returns (r: Outcome)
      requires Valid() && Granted() && len == |x| <= space && Stored(x)
      modifies this`reserved, this`accepted, this`curr, this`buffers, this`marks, this`launched, this`wire, buffers[|buffers| - 1]
      ensures Valid() && !reserved && accepted == if failed then old(accepted) else old(accepted) + x
      ensures |wire| >= |old(wire)| && (forall i :: 0 <= i < |buffers| ==> buffers[i] in old(buffers))
      ensures r == Aborted <==> !failed && old(curr) == null && old(HeadEmpty()) && (|old(buffers)| > 1 || x == [])
      ensures r != Aborted ==> Live()
      ensures r == Done && !failed ==> curr != null || buffers == []
      ensures r == Error ==> !start
      ensures old(curr) != null ==> r == Done && curr == old(curr) && buffers == old(buffers)
      ensures old(curr) != null && !failed ==> (HeadEmpty() <==> old(HeadEmpty()) && (|buffers| > 1 || x == []))
      ensures x != [] && old(Filled(1)) ==> r != Aborted && (failed || Filled(0))
    {
      if !failed {
        Extend(x, len);
      }
      reserved := false;
      r := Poke(start);
    }

    /**
     netbuf_write_write(W, buf, buflen): accepted, or discarded after a failure, or refused
     for lack of memory, which leaves the reservation flag set. It aborts exactly if a reservation
     has failed before, or if nothing is written while nothing is queued or in flight; and what is
     written while a buffer is in flight leaves an empty buffer next exactly as stated last.
     */
    method Write(x: seq<Octet>, alloc: bool, start: bool) returns (r: Outcome)
      requires Valid()
      modifies this, buffers
      ensures Valid() && failed == old(failed) && |wire| >= |old(wire)|
      ensures forall i :: 0 <= i < |buffers| ==> buffers[i] in old(buffers) || fresh(buffers[i])
      ensures accepted == if failed || reserved then old(accepted) else old(accepted) + x
      ensures reserved <==> old(reserved) || (!failed && old(NeedsBuffer(|x|)) && !alloc)
      ensures !failed && !old(reserved) && reserved ==> r == Error && curr == old(curr)
      ensures old(Live()) ==>
        (r == Aborted <==> !failed && (old(reserved) || (alloc && x == [] && old(buffers) == [] && old(curr) == null)))
      ensures old(Live()) && r != Aborted ==> Live()
      ensures r == Done && !failed ==> curr != null || buffers == []
      ensures r == Error ==> !start || reserved
      ensures !failed && !reserved && old(curr) != null ==>
        && r == Done && curr == old(curr)
        && (HeadEmpty() <==> if old(buffers) == [] then x == []
                             else old(HeadEmpty()) && (|old(buffers)| > 1 || x == [] || old(NeedsBuffer(|x|))))
      ensures x != [] && old(Filled(0)) && !old(reserved) ==> r != Aborted && (failed || reserved || Filled(0))
    {
      if failed {
        return Done;
      }
      r := Reserve(|x|, alloc);
      if r == Done {
        assert buffers[|buffers| - 1] in buffers;
        r := StoreAndConsume(x, start);
      }
    }

    /** Copy data into the reserved space, and consume the reservation. */
    method StoreAndConsume(x: seq<Octet>, start: bool) returns (r: Outcome)
      requires Valid() && Granted() && |x| == space && !failed
      modifies this`reserved, this`accepted, this`curr, this`buffers, this`marks, this`launched, this`wire, buffers[|buffers| - 1]
      ensures Valid() && !reserved && accepted == old(accepted) + x
      ensures |wire| >= |old(wire)| && (forall i :: 0 <= i < |buffers| ==> buffers[i] in old(buffers))
      ensures r == Aborted <==> old(curr) == null && old(HeadEmpty()) && (|old(buffers)| > 1 || x == [])
      ensures r != Aborted ==> Live()
      ensures r == Done ==> curr != null || buffers == []
      ensures r == Error ==> !start
      ensures old(curr) != null ==>
        r == Done && curr == old(curr) && (HeadEmpty() <==> old(HeadEmpty()) && (|old(buffers)| > 1 || x == []))
      ensures x != [] && old(Filled(1)) ==> r != Aborted && Filled(0)
    {
      Fill(x);
      r := Consume(x, |x|, start);
    }
  }

  /** Writing nothing while the last buffer is in flight makes the callback abort. */
  method EmptyWriteWhileBusy(w: Writer) returns (first: Outcome, second: Outcome)
    requires w.Valid() && w.Live() && w.curr != null && w.buffers == [] && !w.reserved
    modifies w, w.buffers
    ensures first == Done && second == Aborted
  {
    first := w.Write([], true, true);
    second := w.Writbuf(w.curr.datalen, true);
  }

  /** A write that is refused for lack of memory makes the callback abort. */
  method RefusedWriteWhileBusy(w: Writer, x: seq<Octet>, writelen: int, start: bool) returns (first: Outcome, second: Outcome)
    requires w.Valid() && w.curr != null && !w.reserved && w.NeedsBuffer(|x|)
    modifies w, w.buffers
    ensures first == Error && second == Aborted
  {
    first := w.Write(x, false, start);
    second := w.Writbuf(writelen, start);
  }

  // ------------------------------------------------------------------- runs

  /** All octets of a list of writes. */
  function Joined(xs: seq<seq<Octet>>): seq<Octet> {
    if xs == [] then [] else Joined(xs[..|xs| - 1]) + xs[|xs| - 1]
  }

  /** A writer in use: no failure, no reservation, no empty buffer, and never idle with data queued. */
  ghost predicate Running(w: Writer)
    reads w, w.buffers, w.curr
  {
    w.Valid() && w.Live() && !w.failed && !w.reserved && w.Filled(0) && (w.curr != null || w.buffers == [])
  }

  /** With nothing queued, everything accepted has been given to the network. */
  lemma NothingQueued(w: Writer)
    requires w.Valid() && w.buffers == []
    ensures w.wire == w.accepted
  {
    assert w.accepted[..|w.accepted|] == w.accepted;
  }

  /** The network completes a write. */
  method Complete(w: Writer, start: bool) returns (r: Outcome)
    requires Running(w) && w.curr != null
    modifies w
    ensures w.accepted == old(w.accepted) && (r == Done || (r == Error && !start))
    ensures r == Done ==> Running(w) && (forall i :: 0 <= i < |w.buffers| ==> w.buffers[i] in old(w.buffers))
    ensures r == Done ==> if old(w.buffers) == [] then w.curr == null else |w.buffers| < |old(w.buffers)|
  {
    r := w.Writbuf(w.curr.datalen, start);
  }

  /** Up to n writes complete. */
  method CompleteSome(w: Writer, n: nat, memory: bool) returns (r: Outcome)
    requires Running(w)
    modifies w
    ensures w.accepted == old(w.accepted) && (r == Done || (r == Error && !memory))
    ensures r == Done ==> Running(w) && (forall i :: 0 <= i < |w.buffers| ==> w.buffers[i] in old(w.buffers))
    ensures r == Done && n > |old(w.buffers)| ==> w.curr == null
  {
    r := Done;
    var left := n;
    while left > 0 && w.curr != null
      invariant Running(w) && w.accepted == old(w.accepted) && (forall i :: 0 <= i < |w.buffers| ==> w.buffers[i] in old(w.buffers))
      invariant w.curr != null && n > |old(w.buffers)| ==> left > |w.buffers|
      decreases left
    {
      var start := *;
      r := Complete(w, memory || start);
      if r == Error {
        return;
      }
      left := left - 1;
    }
    r := Done;
  }

  /** When all writes have completed, the network has everything. */
  method Flush(w: Writer, memory: bool) returns (r: Outcome)
    requires Running(w)
    modifies w
    ensures r == Done || (r == Error && !memory)
    ensures w.accepted == old(w.accepted) && (r == Done ==> Running(w) && w.curr == null && w.wire == w.accepted)
  {
    r := CompleteSome(w, |w.buffers| + 1, memory);
    if r == Done {
      NothingQueued(w);
    }
  }

  /** A write of something while the writer is in use. */
  method Continue(w: Writer, x: seq<Octet>, alloc: bool, start: bool) returns (r: Outcome)
    requires Running(w) && x != []
    modifies w, w.buffers
    ensures r == Done || (r == Error && !(alloc && start))
    ensures r == Done ==> Running(w) && w.accepted == old(w.accepted) + x
    ensures forall i :: 0 <= i < |w.buffers| ==> w.buffers[i] in old(w.buffers) || fresh(w.buffers[i])
  {
    r := w.Write(x, alloc, start);
  }

  /**
   A whole run: non-empty writes, with the network completing writes at any time in between, and at the
   end. If memory suffices, and else unless it runs out, what the network was given is exactly what was written, in order.
   */
  method Session(xs: seq<seq<Octet>>, memory: bool) returns (w: Writer, r: Outcome)
    requires forall i :: 0 <= i < |xs| ==> xs[i] != []
    ensures r == Done || (r == Error && !memory)
    ensures r == Done ==> w.curr == null && !w.failed && w.wire == Joined(xs)
  {
    w := new Writer();
    for i := 0 to |xs|
      invariant fresh(w) && Running(w) && w.accepted == Joined(xs[..i])
      invariant forall j :: 0 <= j < |w.buffers| ==> fresh(w.buffers[j])
    {
      var alloc, start := *, *;
      r := Continue(w, xs[i], memory || alloc, memory || start);
      if r == Error {
        return;
      }
      JoinedNext(xs, i);
      var n: nat :| n >= 0;
      r := CompleteSome(w, n, memory);
      if r == Error {
        return;
      }
    }
    assert xs[..|xs|] == xs;
    r := Flush(w, memory);
  }

  lemma JoinedNext(xs: seq<seq<Octet>>, i: nat)
    requires i < |xs|
    ensures Joined(xs[..i + 1]) == Joined(xs[..i]) + xs[i]
  {
    assert xs[..i + 1][..i] == xs[..i];
  }
}
