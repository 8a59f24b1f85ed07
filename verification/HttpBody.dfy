/**
 Reading a response through the buffered reader, as its octets arrive (http/http.c).
 */
module HttpBody {
  import opened Machine
  import opened Octets
  import opened HttpHeader
  import NetbufRead

  const MAXHDR: nat := 65536
  const MAXCHLEN: nat := 256

  /** What a chunk length field says; the parser of numbers is given. */
  type LengthParser = Text -> Option<nat>

  // ------------------------------------------ chunked bodies, section 7.1 of RFC 9112

  /** A chunk: the line that gives its length, and its data. */
  datatype Chunk = Chunk(line: Text, data: Text)

  /** How reading a body ends. */
  datatype Result = Delivered(body: Text) | TooLarge | Abort

  /** The text x is found at position p. */
  ghost predicate Found(s: Text, p: nat, x: Text) {
    p + |x| <= |s| && s[p..p + |x|] == x
  }

  /** A line at position p, short enough that it is never given up on. */
  ghost predicate LineAt(s: Text, p: nat, line: Text) {
    |line| + 2 <= 256 && Found(s, p, line) && Eol(s, p + |line|)
    && forall q :: 0 <= q < |line| ==> !Eol(line, q)
  }

  ghost predicate ChunkAt(parse: LengthParser, s: Text, p: nat, c: Chunk) {
    LineAt(s, p, c.line) && parse(c.line) == Some(|c.data|) && c.data != []
    && Found(s, p + |c.line| + 2, c.data) && Eol(s, p + |c.line| + 2 + |c.data|)
  }

  function After(p: nat, c: Chunk): nat {
    p + |c.line| + 2 + |c.data| + 2
  }

  /** From position p on, s holds the chunks and a last chunk of length zero. */
  ghost predicate ChunkedAt(parse: LengthParser, s: Text, p: nat, chunks: seq<Chunk>, last: Text)
    decreases |chunks|
  {
    if chunks == [] then LineAt(s, p, last) && parse(last) == Some(0)
    else ChunkAt(parse, s, p, chunks[0]) && ChunkedAt(parse, s, After(p, chunks[0]), chunks[1..], last)
  }

  function BodyOf(chunks: seq<Chunk>): Text {
    if chunks == [] then [] else chunks[0].data + BodyOf(chunks[1..])
  }

  /**
   What becomes of chunks after the body so far. The end of line after a chunk is kept
   in the body buffer for a moment, and a sanity check fails if it does not fit there.
   */
  function Expected(chunks: seq<Chunk>, body: Text, max: nat): Result
    decreases |chunks|
  {
    if chunks == [] then Delivered(body)
    else
      var n := |chunks[0].data|;
      if |body| + n > max then TooLarge
      else if n > SIZE_MAX - 2 then TooLarge
      else if |body| + n + 2 > max then Abort
      else Expected(chunks[1..], body + chunks[0].data, max)
  }

  /** Every chunk fits, with two octets to spare. */
  ghost predicate Fits(chunks: seq<Chunk>, length: nat, max: nat)
    decreases |chunks|
  {
    chunks == []
    || (length + |chunks[0].data| + 2 <= max && |chunks[0].data| <= SIZE_MAX - 2
        && Fits(chunks[1..], length + |chunks[0].data|, max))
  }

  /** The body is delivered exactly if every chunk fits, and then it is the data of all chunks. */
  lemma {:induction false} DeliveredIffFits(chunks: seq<Chunk>, body: Text, max: nat)
    ensures Fits(chunks, |body|, max) <==> Expected(chunks, body, max).Delivered?
    ensures Expected(chunks, body, max).Delivered? ==> Expected(chunks, body, max) == Delivered(body + BodyOf(chunks))
    decreases |chunks|
  {
    if chunks == [] {
      assert body + [] == body;
    } else {
      DeliveredIffFits(chunks[1..], body + chunks[0].data, max);
      assert body + chunks[0].data + BodyOf(chunks[1..]) == body + BodyOf(chunks);
    }
  }

  /** A body of exactly the maximum length is not delivered: the end of line after it does not fit. */
  lemma ExactFitAborts(c: Chunk)
    requires c.data != [] && |c.data| <= SIZE_MAX - 2
    ensures Expected([c], [], |c.data|) == Abort
  {
  }

  // ------------------------------------------------------------------ lemmas

  /** The first end of a line within what has arrived. */
  lemma EolArrived(s: Text, p: nat, line: Text, arrived: nat)
    requires LineAt(s, p, line) && p <= arrived <= |s|
    ensures FirstEol(s[p..arrived], 0) == if p + |line| + 2 <= arrived then |line| else arrived - p
  {
    var buf := s[p..arrived];
    var e := if p + |line| + 2 <= arrived then |line| else arrived - p;
    forall q | 0 <= q < e
      ensures !Eol(buf, q)
    {
      assert s[p..p + |line|] == line;
      if q + 1 < |line| {
        assert !Eol(line, q);
        assert q + 2 <= |buf| ==> buf[q] == line[q] && buf[q + 1] == line[q + 1];
      } else if q + 1 == |line| && q + 2 <= |buf| {
        assert buf[q + 1] == s[p + |line|] == 13;
      }
    }
    FirstEolUnique(buf, 0, e);
  }

  // ---------------------------------------------------------------- the code

  datatype Phase =
    | WaitHeader(n: nat) | WaitChunk(n: nat) | WaitData(n: nat)
    | GotHead(head: Text)
    | Done | TooBig | Failed | Died | Aborted

  class Response {
    const R: NetbufRead.Reader
    const parse: LengthParser
    const stream: Text      // everything the server will send
    const memory: bool      // no allocation fails, nor does the registration of a read
    const steady: bool      // the connection lasts
    var arrived: nat        // how much of the stream is there
    ghost var pos: nat      // how much of that was consumed
    var hepos: nat
    var readlen: nat
    var body: Text          // the buffer; its length is the allocation
    var bodylen: nat
    const max: nat
    var phase: Phase
    ghost var rest: seq<Chunk>   // chunks not completely read
    ghost var base: Text         // the body before the first of them
    ghost var last: Text
    ghost var start: nat         // where the data of the first of them begins
    ghost const expected: Result // how it has to end

    /** A request was sent; the response is about to arrive. */
    constructor (parse: LengthParser, stream: Text, max: nat, memory: bool, steady: bool, ghost chunks: seq<Chunk>, ghost last: Text)
      requires max <= SIZE_MAX
      ensures fresh(R) && fresh(R.buf) && Idle() && this.memory == memory && this.steady == steady
      ensures Shape() && hepos == pos == 0 && body == base == [] && rest == chunks && this.last == last
      ensures this.parse == parse && this.stream == stream && this.max == max && expected == Expected(chunks, [], max)
    {
      this.parse, this.stream, this.max, this.memory, this.steady := parse, stream, max, memory, steady;
      R := new NetbufRead.Reader();
      arrived, pos, hepos, readlen, body, bodylen, phase := 0, 0, 0, 0, [], 0, WaitHeader(0);
      rest, base, this.last, start, expected := chunks, [], last, 0, Expected(chunks, [], max);
    }

    // ------------------------------------------------------------- the reader

    ghost predicate Linked()
      reads this`arrived, this`pos, R, R.buf
    {
      pos <= arrived <= |stream| && forall b {:trigger Asked(b)} :: Asked(b) ==> Holds()
    }

    /** The reader holds what has arrived of the stream, and was told what was consumed. */
    ghost predicate Holds()
      reads this`arrived, this`pos, R, R.buf
    {
      R.Valid() && pos <= arrived <= |stream| && R.incoming == stream[..arrived] && R.consumed == pos
    }

    ghost predicate Idle()
      reads this`arrived, this`pos, R, R.buf
    {
      Linked() && R.pending == NetbufRead.Idle
    }

    /** A read is under way that will leave at least n octets. */
    ghost predicate Waiting(n: nat)
      reads this`arrived, this`pos, R, R.buf
    {
      Linked() && R.pending.Reading? && R.pending.min == pos + n - arrived
    }

    /** The reader is waiting exactly if the response is. */
    ghost predicate Attached()
      reads this`arrived, this`pos, this`phase, R, R.buf
    {
      if phase.WaitHeader? || phase.WaitChunk? || phase.WaitData? then Waiting(phase.n) else Idle()
    }

    method Peek() returns (buf: Text)
      requires Idle()
      ensures pos <= arrived && buf == stream[pos..arrived]
    {
      assert Asked(true);
      buf := R.Peek();
    }

    method Consume(n: nat)
      requires Idle() && pos + n <= arrived
      modifies this`pos, R
      ensures Idle() && pos == old(pos) + n && R.buf == old(R.buf)
    {
      assert Asked(true);
      R.Consume(n);
      pos := pos + n;
    }

    /** Wait for n octets, more than there are. */
    method Wait(n: nat) returns (ok: bool)
      requires Idle() && arrived < pos + n && n <= SIZE_MAX
      modifies R, R.buf
      ensures (fresh(R.buf) || R.buf == old(R.buf)) && (memory ==> ok) && if ok then Waiting(n) else Idle()
    {
      assert Asked(true);
      var space :| memory ==> space;
      var register :| memory ==> register;
      ok := R.Wait(n, space, register);
    }

    /** The network delivers what was asked for, more or less of it at a time, or gives up. */
    method Deliver(n: nat) returns (ok: bool)
      requires Waiting(n) && pos + n <= |stream| && arrived < pos + n
      modifies this`arrived, R, R.buf
      ensures Idle() && R.buf == old(R.buf) && (steady ==> ok)
      ensures if ok then pos + n <= arrived else arrived == old(arrived)
    {
      assert Asked(true);
      ok :| steady ==> ok;
      var a: nat := arrived;
      if ok {
        a :| arrived + R.pending.min <= a <= |stream| && a - arrived <= R.pending.max;
      }
      var gaveUp :| gaveUp != NetbufRead.Available;
      var status := R.CallbackRead(stream[arrived..a], gaveUp);
      ok := status == NetbufRead.Available;
      arrived := a;
    }

    ghost predicate Shape()
      reads this
    {
      pos <= arrived <= |stream| && bodylen <= |body| <= max <= SIZE_MAX
    }

    /** At the start of a chunk. */
    ghost predicate AtChunk()
      reads this
    {
      Shape() && ChunkedAt(parse, stream, pos, rest, last)
      && body[..bodylen] == base && Expected(rest, base, max) == expected
    }

    /** Within the data of the first chunk of rest. */
    ghost predicate InData()
      reads this
    {
      Shape() && Chunked() && start <= pos && pos + readlen == start + |rest[0].data| + 2
      && body[..bodylen] == base + stream[start..pos]
    }

    ghost predicate Chunked()
      reads this`rest, this`start, this`base, this`last
    {
      rest != [] && start + |rest[0].data| + 2 <= |stream|
      && forall b {:trigger Asked(b)} :: Asked(b) ==> Data()
    }

    /** The first chunk of rest has its data at start. */
    ghost predicate Data()
      reads this`rest, this`start, this`base, this`last
    {
      rest != [] && Found(stream, start, rest[0].data) && Eol(stream, start + |rest[0].data|)
      && ChunkedAt(parse, stream, start + |rest[0].data| + 2, rest[1..], last)
      && |base| + |rest[0].data| <= max && |rest[0].data| <= SIZE_MAX - 2
      && Expected(rest, base, max) == expected
    }

    /** A wait that the rest of the stream will satisfy, or an end as expected. */
    ghost predicate OnTrack()
      reads this
    {
      match phase
      case WaitChunk(n) => AtChunk() && arrived < pos + n <= |stream|
      case WaitData(n) => InData() && arrived < pos + n <= |stream| && readlen > 0
      case Done => Shape() && expected == Delivered(body[..bodylen])
      case TooBig => expected == TooLarge
      case Aborted => expected == Abort
      case Died => !memory
      case Failed => !steady
      case WaitHeader(_) => false
      case GotHead(_) => false
    }

    // ------------------------------------------------------------- the header

    /** Nothing before hepos ends a header. */
    ghost predicate Scanned()
      reads this
    {
      pos <= arrived <= |stream| && forall q :: pos <= q < pos + hepos ==> !HeadEnd(stream, q)
    }

    /** A wait for more of a header, or the first header there is. */
    ghost predicate HeadOnTrack(from: nat)
      reads this
    {
      match phase
      case WaitHeader(n) => pos == from && Scanned() && n == arrived - pos + 1 && forall e: nat :: FirstHead(stream, from, e) ==> arrived < e
      case GotHead(head) => pos <= arrived <= |stream| && from <= pos && hepos == 0
                            && head == stream[from..pos] && FirstHead(stream, from, pos)
      case Failed => !steady || forall e: nat :: FirstHead(stream, from, e) ==> e - from > 65537
      case Died => !memory
      case _ => false
    }

    /** Scan forwards looking for the end of the header. */
    method Scan(buf: Text)
      requires Scanned() && buf == stream[pos..arrived]
      modifies this`hepos
      ensures Scanned() && hepos >= old(hepos)
      ensures hepos + 4 <= |buf| ==> HeadEnd(stream, pos + hepos)
    {
      while hepos + 4 <= |buf|
        invariant Scanned() && hepos >= old(hepos)
      {
        HeadEndArrived(stream, pos, arrived, hepos);
        if HeadEnd(buf, hepos) {
          break;
        }
        hepos := hepos + 1;
      }
    }

    /** No header ends within what has arrived. */
    lemma NotYet(e: nat)
      requires Scanned() && arrived - pos < hepos + 4 && FirstHead(stream, pos, e)
      ensures arrived < e
    {
      assert HeadEnd(stream, e - 4);
    }

    /** callback_read_header(H, 0), up to the call of gotheaders and the copy of the header. */
    method ReadHeader()
      requires Idle() && Scanned()
      modifies this`hepos, this`pos, this`phase, R, R.buf
      ensures HeadOnTrack(old(pos)) && Attached() && (fresh(R.buf) || R.buf == old(R.buf))
      ensures phase == Failed ==> forall e: nat :: FirstHead(stream, old(pos), e) ==> e - old(pos) > 65537
    {
      var buf := Peek();
      Scan(buf);
      if hepos + 4 <= |buf| {
        Front(stream, pos, arrived, hepos + 4);
        GotHeaders(buf[..hepos + 4]);
        return;
      }
      forall e: nat | FirstHead(stream, pos, e)
        ensures arrived < e
      {
        NotYet(e);
      }
      if |buf| > MAXHDR {
        phase := Failed;
        return;
      }
      var ok := Wait(|buf| + 1);
      phase := if ok then WaitHeader(|buf| + 1) else Died;
    }

    /** The start of gotheaders: copy the header and consume it. */
    method GotHeaders(head: Text)
      requires Idle() && Scanned() && |head| == hepos + 4 && pos + |head| <= arrived && head == stream[pos..pos + |head|]
      requires HeadEnd(stream, pos + hepos)
      modifies this`hepos, this`pos, this`phase, R
      ensures HeadOnTrack(old(pos)) && phase != Failed && Attached() && R.buf == old(R.buf)
    {
      var ok :| memory ==> ok;
      if ok {
        Consume(|head|);
        hepos := 0;
      }
      phase := if ok then GotHead(head) else Died;
    }

    /** Read a header, however its octets arrive; without one, this waits in vain. */
    method ReceiveHeader(ghost end: nat)
      requires Idle() && Scanned() && FirstHead(stream, pos, end) && end - pos <= 65537
      modifies this`hepos, this`pos, this`phase, this`arrived, R, R.buf
      ensures Idle() && (fresh(R.buf) || R.buf == old(R.buf))
      ensures phase == GotHead(stream[old(pos)..end]) || (phase == Died && !memory) || (phase == Failed && !steady)
      ensures phase.GotHead? ==> pos == end <= arrived <= |stream| && IsHead(stream[old(pos)..end])
    {
      ghost var from := pos;
      ReadHeader();
      while phase.WaitHeader?
        invariant HeadOnTrack(from) && Attached() && (fresh(R.buf) || R.buf == old(R.buf))
        decreases if phase.WaitHeader? then |stream| - arrived else -1
      {
        assert arrived < end <= |stream|;
        var ok := Deliver(phase.n);
        if ok {
          ReadHeader();
        } else {
          phase := Failed;
        }
      }
      if phase.GotHead? {
        FirstHeadUnique(stream, from, pos, end);
        HeadIs(stream, from, end);
      }
    }

    // --------------------------------------------------------------- the body

    /** addbody(H, buf, buflen): false if there is no memory. */
    method AddBody(x: Text) returns (ok: bool)
      requires bodylen <= |body| <= max <= SIZE_MAX && bodylen + |x| <= max
      modifies this`body, this`bodylen
      ensures bodylen <= |body| <= max && (memory || old(bodylen) + |x| <= old(|body|) ==> ok)
      ensures ok ==> bodylen == old(bodylen) + |x| && body[..bodylen] == old(body[..bodylen]) + x
    {
      ok := true;
      if bodylen + |x| > |body| {
        var nalloc := |body| * 2 % (SIZE_MAX + 1);
        if nalloc < bodylen + |x| {
          nalloc := bodylen + |x|;
        }
        if nalloc > max {
          nalloc := max;
        }
        ok :| memory ==> ok;
        if !ok {
          return;
        }
        body := body[..bodylen] + seq<Octet>(nalloc - bodylen, _ => 0);
      }
      body := body[..bodylen] + x + body[bodylen + |x|..];
      bodylen := bodylen + |x|;
    }

    /** The line that is expected next. */
    ghost function NextLine(): Text
      reads this
    {
      if rest == [] then last else rest[0].line
    }

    /** callback_chunkedheader(H, 0) */
    method ChunkedHeader()
      requires Idle() && AtChunk()
      modifies this, R, R.buf
      ensures arrived == old(arrived) && OnTrack() && phase != Failed && Attached() && (fresh(R.buf) || R.buf == old(R.buf))
      decreases arrived - pos, 1
    {
      var buf := Peek();
      EolArrived(stream, pos, NextLine(), arrived);
      var eolpos := FindEol(buf, 0);
      if eolpos != |buf| {
        Front(stream, pos, arrived, eolpos);
        var clen := parse(buf[..eolpos]).value;
        StartChunk(eolpos, clen);
        return;
      }
      assert |buf| < MAXCHLEN;
      var ok := Wait(|buf| + 1);
      phase := if ok then WaitChunk(|buf| + 1) else Died;
    }

    /** Consume the line and its end, and begin to read the chunk. */
    method StartChunk(eolpos: nat, clen: nat)
      requires Idle() && AtChunk() && eolpos == |NextLine()| && pos + eolpos + 2 <= arrived && parse(NextLine()) == Some(clen)
      modifies this, R, R.buf
      ensures arrived == old(arrived) && OnTrack() && phase != Failed && Attached() && (fresh(R.buf) || R.buf == old(R.buf))
      decreases arrived - pos, 0
    {
      Consume(eolpos + 2);
      if clen == 0 {
        phase := Done;
      } else if clen > max - bodylen {
        phase := TooBig;
      } else if clen > SIZE_MAX - 2 {
        phase := TooBig;
      } else {
        BeginData(clen);
        ReadData();
      }
    }

    /** Read the chunk data plus the end of line after it. */
    method BeginData(clen: nat)
      requires Shape() && body[..bodylen] == base && Expected(rest, base, max) == expected
      requires rest != [] && clen == |rest[0].data| && clen <= SIZE_MAX - 2 && clen <= max - bodylen
      requires Found(stream, pos, rest[0].data) && Eol(stream, pos + clen)
      requires ChunkedAt(parse, stream, pos + clen + 2, rest[1..], last)
      modifies this`readlen, this`start
      ensures InData() && readlen == clen + 2
    {
      readlen, start := clen + 2, pos;
      assert stream[pos..pos] == [] && base + [] == base;
    }

    /** Add what has arrived of the chunk to the body; it may not fit, or memory may run out. */
    method TakeData(buf: Text) returns (fits: bool, ok: bool)
      requires Idle() && InData() && |buf| <= readlen && pos + |buf| <= arrived && buf == stream[pos..pos + |buf|]
      modifies this`pos, this`readlen, this`body, this`bodylen, R
      ensures Idle() && R.buf == old(R.buf)
      ensures (!fits ==> expected == Abort) && (!ok ==> !memory)
      ensures fits && ok ==> InData() && pos == old(pos) + |buf| && readlen == old(readlen) - |buf|
    {
      fits, ok := bodylen + |buf| <= max, true;
      if !fits {
        NoRoom(|buf|);
        return;
      }
      ok := AddBody(buf);
      if ok {
        Extended(base, stream, start, pos, |buf|);
        Advance(|buf|);
      }
    }

    /** Data that does not fit is the data of a chunk that is expected not to fit. */
    lemma NoRoom(n: nat)
      requires InData() && n <= readlen && bodylen + n > max
      ensures expected == Abort
    {
      assert Asked(true);
      assert |body[..bodylen]| == |base + stream[start..pos]|;
    }

    /** The data was added to the body; move on behind it. */
    method Advance(n: nat)
      requires Idle() && Shape() && Chunked() && start <= pos && pos + readlen == start + |rest[0].data| + 2
      requires n <= readlen && pos + n <= arrived && body[..bodylen] == base + stream[start..pos + n]
      modifies this`pos, this`readlen, R
      ensures Idle() && R.buf == old(R.buf) && InData() && pos == old(pos) + n && readlen == old(readlen) - n
    {
      Consume(n);
      readlen := readlen - n;
    }

    /** Strip the trailing EOL of a complete chunk. */
    method FinishChunk()
      requires InData() && readlen == 0
      modifies this`bodylen, this`base, this`rest
      ensures AtChunk()
    {
      assert Asked(true);
      ghost var data := rest[0].data;
      assert stream[start..pos][..|data|] == stream[start..start + |data|] == data;
      assert body[..bodylen][..bodylen - 2] == body[..bodylen - 2];
      assert (base + stream[start..pos])[..|base| + |data|] == base + data;
      bodylen := bodylen - 2;
      base := base + data;
      rest := rest[1..];
    }

    /** callback_readdata(H, 0) */
    method ReadData()
      requires Idle() && InData() && readlen > 0
      modifies this, R, R.buf
      ensures arrived == old(arrived) && OnTrack() && phase != Failed && Attached() && (fresh(R.buf) || R.buf == old(R.buf))
      decreases arrived - pos, 2
    {
      var buf := Peek();
      var buflen := if |buf| > readlen then readlen else |buf|;
      Front(stream, pos, arrived, buflen);
      var fits, ok := TakeData(buf[..buflen]);
      if !fits || !ok {
        phase := if fits then Died else Aborted;
        return;
      }
      if readlen == 0 {
        FinishChunk();
        ChunkedHeader();
        return;
      }
      AwaitData();
    }

    ghost predicate Ended(result: Result)
      reads this
    {
      match result
      case Delivered(b) => phase == Done && bodylen <= |body| && body[..bodylen] == b
      case TooLarge => phase == TooBig
      case Abort => phase == Aborted
    }

    /** Read a chunked body, however its octets arrive. */
    method ReceiveBody()
      requires Idle() && AtChunk()
      modifies this, R, R.buf
      ensures Ended(expected) || (phase == Died && !memory) || (phase == Failed && !steady)
    {
      ChunkedHeader();
      while phase.WaitChunk? || phase.WaitData?
        invariant OnTrack() && Attached() && (fresh(R.buf) || R.buf == old(R.buf))
        decreases if phase.WaitChunk? || phase.WaitData? then |stream| - arrived else -1
      {
        Wake();
      }
    }

    /** The callback of a wait: octets have arrived, at least as many as were waited for, or none will. */
    method Wake()
      requires (phase.WaitChunk? || phase.WaitData?) && OnTrack() && Attached()
      modifies this, R, R.buf
      ensures arrived > old(arrived) || phase == Failed
      ensures OnTrack() && Attached() && (fresh(R.buf) || R.buf == old(R.buf))
    {
      var chunk := phase.WaitChunk?;
      var ok := Deliver(phase.n);
      if !ok {
        phase := Failed;
      } else if chunk {
        assert AtChunk();
        ChunkedHeader();
      } else {
        assert InData();
        ReadData();
      }
    }

    /** Wait for the rest of the chunk, but for at most 1 MB. */
    method AwaitData()
      requires Idle() && InData() && readlen > 0 && pos == arrived
      modifies this`phase, R, R.buf
      ensures OnTrack() && phase != Failed && Attached() && (fresh(R.buf) || R.buf == old(R.buf))
    {
      var waitlen := if readlen > 1024 * 1024 then 1024 * 1024 else readlen;
      var ok := Wait(waitlen);
      phase := if ok then WaitData(waitlen) else Died;
    }
  }

  /**
   A response with a header and a chunked body: however its octets arrive, the body delivered is
   the data of the chunks, unless it is too large, memory runs out, or the connection breaks.
   */
  method Receive(parse: LengthParser, stream: Text, max: nat, memory: bool, steady: bool,
                 ghost end: nat, ghost chunks: seq<Chunk>, ghost last: Text)
    returns (r: Response)
    requires max <= SIZE_MAX && FirstHead(stream, 0, end) && end <= 65537
    requires ChunkedAt(parse, stream, end, chunks, last)
    ensures r.Ended(Expected(chunks, [], max)) || (r.phase == Died && !memory) || (r.phase == Failed && !steady)
    ensures memory && steady && Fits(chunks, 0, max) ==> r.Ended(Delivered(BodyOf(chunks)))
  {
    r := new Response(parse, stream, max, memory, steady, chunks, last);
    r.ReceiveHeader(end);
    if r.phase.GotHead? {
      r.ReceiveBody();
      DeliveredIffFits(chunks, [], max);
      assert [] + BodyOf(chunks) == BodyOf(chunks);
    }
  }

  /** The end of a header at position i. */
  predicate HeadEnd(s: Text, i: int) {
    Eol(s, i) && Eol(s, i + 2)
  }

  /** The first header from position p on ends at e. */
  ghost predicate FirstHead(s: Text, p: nat, e: nat) {
    p + 4 <= e && HeadEnd(s, e - 4) && forall q :: p <= q < e - 4 ==> !HeadEnd(s, q)
  }

  lemma FirstHeadUnique(s: Text, p: nat, d: nat, e: nat)
    requires FirstHead(s, p, d) && FirstHead(s, p, e)
    ensures d == e
  {
  }

  lemma HeadIs(s: Text, p: nat, e: nat)
    requires FirstHead(s, p, e)
    ensures IsHead(s[p..e])
  {
  }

  lemma HeadEndArrived(s: Text, p: nat, arrived: nat, q: nat)
    requires p <= arrived <= |s|
    ensures HeadEnd(s[p..arrived], q) <==> p + q + 4 <= arrived && HeadEnd(s, p + q)
  {
  }

  lemma Front(s: Text, p: nat, arrived: nat, n: nat)
    requires p + n <= arrived <= |s|
    ensures s[p..arrived][..n] == s[p..p + n]
  {
  }

  lemma Extended(base: Text, s: Text, start: nat, pos: nat, n: nat)
    requires start <= pos && pos + n <= |s|
    ensures base + s[start..pos] + s[pos..pos + n] == base + s[start..pos + n]
  {
  }
}
