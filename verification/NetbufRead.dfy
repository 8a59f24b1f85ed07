/**
 The buffered reader (netbuf/netbuf_read.c). The network delivers octets into the
 buffer that a pending read request names; the caller peeks and consumes.
 */
module NetbufRead {
  import opened Machine
  import opened Octets

  /** What a wait is waiting for; a read is for min to max octets. */
  datatype Pending = Idle | Immediate | Reading(max: nat, min: nat)

  /** What the callback of a wait is told. */
  datatype Status = Available | Eof | Failed

  class Reader {
    var buf: array<Octet>
    var bufpos: nat
    var datalen: nat
    var pending: Pending
    ghost var incoming: seq<Octet>  // everything the network has delivered
    ghost var consumed: nat         // octets of it that were consumed
    ghost var wanted: nat           // octets that a successful wait must leave

    ghost predicate Valid()
      reads this, buf
    {
      Shape() && consumed <= |incoming| && buf[bufpos..datalen] == incoming[consumed..]
    }

    /** The positions, and the request that is under way: non-empty and within the buffer. */
    ghost predicate Shape()
      reads this
    {
      bufpos <= datalen <= buf.Length <= SIZE_MAX && buf.Length > 0
      && match pending
         case Idle => true
         case Immediate => datalen - bufpos >= wanted
         case Reading(max, min) => 1 <= min <= max == buf.Length - datalen && bufpos + wanted <= datalen + min
    }

    /** netbuf_read_init(s) */
    constructor ()
      ensures Valid() && fresh(buf) && incoming == [] && consumed == 0 && pending == Idle
    {
      buf := new Octet[4096];
      bufpos, datalen, pending := 0, 0, Idle;
      incoming, consumed, wanted := [], 0, 0;
    }

    /** netbuf_read_peek(R, data, datalen): the octets received and not yet consumed. */
    method Peek() returns (data: seq<Octet>)
      requires Valid()
      ensures data == incoming[consumed..]
    {
      data := buf[bufpos..datalen];
    }

    /** netbuf_read_consume(R, len) */
    method Consume(len: nat)
      requires Valid() && len <= |incoming| - consumed
      modifies this`bufpos, this`consumed, this`wanted
      ensures Valid() && consumed == old(consumed) + len && wanted == if old(wanted) < len then 0 else old(wanted) - len
    {
      assert |buf[bufpos..datalen]| == |incoming[consumed..]|;
      ghost var left := buf[bufpos..datalen];
      assert left[len..] == buf[bufpos + len..datalen] && incoming[consumed..][len..] == incoming[consumed + len..];
      bufpos := bufpos + len;
      consumed := consumed + len;
      wanted := if wanted < len then 0 else wanted - len;
    }

    /** netbuf_read_resize_buffer(R, len) */
    method ResizeBuffer(len: nat, memory: bool) returns (ok: bool)
      requires Valid() && pending == Idle && buf.Length < len <= SIZE_MAX && datalen - bufpos < len
      modifies this`buf, this`bufpos, this`datalen
      ensures Valid() && ok == memory && (ok ==> fresh(buf) && buf.Length >= len) && (!ok ==> buf == old(buf))
    {
      var nbuflen := buf.Length * 2 % (SIZE_MAX + 1);
      if nbuflen < len {
        nbuflen := len;
      }
      ok := memory;
      if !ok {
        return;
      }
      var nbuf := new Octet[nbuflen];
      ghost var data := buf[bufpos..datalen];
      forall i | 0 <= i < datalen - bufpos {
        nbuf[i] := buf[bufpos + i];
      }
      assert nbuf[0..datalen - bufpos] == data;
      buf := nbuf;
      datalen, bufpos := datalen - bufpos, 0;
    }

    /** Move data to start of buffer. */
    method MoveToStart()
      requires Valid() && pending == Idle
      modifies this`bufpos, this`datalen, buf
      ensures Valid() && bufpos == 0
    {
      ghost var data := buf[bufpos..datalen];
      var shift := bufpos;
      forall i | 0 <= i < datalen - bufpos {
        buf[i] := buf[shift + i];
      }
      assert buf[0..datalen - bufpos] == data;
      datalen, bufpos := datalen - bufpos, 0;
    }

    /** Room for len octets from the read position on, without losing any. */
    method MakeRoom(len: nat, memory: bool) returns (ok: bool)
      requires Valid() && pending == Idle && datalen - bufpos < len <= SIZE_MAX
      modifies this`buf, this`bufpos, this`datalen, buf
      ensures Valid() && (fresh(buf) || buf == old(buf)) && (ok ==> bufpos + len <= buf.Length)
      ensures ok <==> old(buf.Length) >= len || memory
    {
      ok := true;
      if buf.Length < len {
        ok := ResizeBuffer(len, memory);
        if !ok {
          return;
        }
      }
      if buf.Length - bufpos < len {
        MoveToStart();
      }
    }

    /**
     netbuf_read_wait(R, len, callback, cookie). It fails exactly if the event or the read cannot be
     registered, or a larger buffer is needed and there is no memory for it.
     */
    method Wait(len: nat, memory: bool, register: bool) returns (ok: bool)
      requires Valid() && pending == Idle && len <= SIZE_MAX
      modifies this`buf, this`bufpos, this`datalen, this`pending, this`wanted, buf
      ensures Valid() && (fresh(buf) || buf == old(buf)) && (!ok ==> pending == Idle)
      ensures ok <==> register && (|incoming| - consumed >= len || old(buf.Length) >= len || memory)
      ensures ok ==> wanted == len && if |incoming| - consumed >= len then pending.Immediate?
                                      else pending.Reading? && pending.min == consumed + len - |incoming|
    {
      assert |buf[bufpos..datalen]| == |incoming[consumed..]|;
      wanted := len;
      if datalen - bufpos >= len {
        ok := register;
        if ok {
          pending := Immediate;
        }
        return;
      }
      ok := MakeRoom(len, memory);
      if !ok {
        return;
      }
      assert |buf[bufpos..datalen]| == |incoming[consumed..]|;
      ok := register;
      if ok {
        pending := Reading(buf.Length - datalen, bufpos + len - datalen);
      }
    }

    /** callback_success: the wait is over. */
    method CallbackSuccess() returns (status: Status)
      requires Valid() && pending.Immediate?
      modifies this`pending
      ensures Valid() && pending == Idle && status == Available && |incoming| - consumed >= wanted
    {
      assert |buf[bufpos..datalen]| == |incoming[consumed..]|;
      pending, status := Idle, Available;
    }

    /**
     callback_read: the network has stored data as requested, or gives up. Only what is
     reported by a length counts as delivered.
     */
    method CallbackRead(data: seq<Octet>, gaveUp: Status) returns (status: Status)
      requires Valid() && pending.Reading? && gaveUp != Available
      requires data == [] || pending.min <= |data| <= pending.max
      modifies this`pending, this`datalen, this`incoming, buf
      ensures Valid() && pending == Idle && incoming == old(incoming) + data
      ensures status == if data == [] then gaveUp else Available
      ensures status == Available ==> |incoming| - consumed >= wanted
    {
      assert |buf[bufpos..datalen]| == |incoming[consumed..]|;
      if data == [] {
        pending, status := Idle, gaveUp;
        incoming := incoming + data;
        return;
      }
      ghost var before := buf[bufpos..datalen];
      forall i | 0 <= i < |data| {
        buf[datalen + i] := data[i];
      }
      assert buf[bufpos..datalen + |data|] == before + data;
      datalen := datalen + |data|;
      incoming := incoming + data;
      pending, status := Idle, Available;
    }

    /** netbuf_read_wait_cancel(R): the callback will not be invoked. */
    method Cancel()
      requires Valid()
      modifies this`pending
      ensures Valid() && pending == Idle
    {
      pending := Idle;
    }
  }
}
