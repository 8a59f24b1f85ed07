/**
 The HMAC_DRBG of crypto/crypto_entropy.c (section 10.1.2 of NIST SP 800-90A),
 without personalization string and additional input. A ghost log of the
 operations performed ties every run to the standard's functions.
 */
module Drbg {
  import opened Octets
  import opened Sha256
  import opened Hmac
  import opened Pbkdf2

  const RESEED_INTERVAL: nat := 256
  const GENERATE_MAXLEN: nat := 65536

  type Mac = (seq<Octet>, seq<Octet>) -> Digest

  /** The internal state. */
  datatype State = State(key: Digest, v: Digest, counter: nat)

  /** What happened to the generator; seeds may be followed by extra entropy from the processor. */
  datatype Op =
    | Instantiated(seed: seq<Octet>, extra: seq<Octet>)
    | Reseeded(seed: seq<Octet>, extra: seq<Octet>)
    | Generated(n: nat)

  /** HMAC_DRBG_Update (section 10.1.2.2) */
  function Mix(mac: Mac, s: State, data: seq<Octet>): State {
    var k1 := mac(s.key, s.v + [0x00] + data);
    var v1 := mac(k1, s.v);
    if data == [] then State(k1, v1, s.counter)
    else
      var k2 := mac(k1, v1 + [0x01] + data);
      State(k2, mac(k2, v1), s.counter)
  }

  /** Extra entropy is mixed in only if there is any. */
  function MixExtra(mac: Mac, s: State, extra: seq<Octet>): State {
    if extra == [] then s else Mix(mac, s, extra)
  }

  /** HMAC_DRBG_Instantiate (section 10.1.2.3) */
  function Instantiate(mac: Mac, seed: seq<Octet>): State {
    Mix(mac, State(seq<Octet>(32, _ => 0x00), seq<Octet>(32, _ => 0x01), 1), seed)
  }

  /** V after n applications of HMAC. */
  function Chain(mac: Mac, key: Digest, v: Digest, n: nat): Digest {
    if n == 0 then v else mac(key, Chain(mac, key, v, n - 1))
  }

  /** The first n values of V, joined. */
  function Stream(mac: Mac, key: Digest, v: Digest, n: nat): (s: seq<Octet>)
    ensures |s| == 32 * n
  {
    if n == 0 then [] else Stream(mac, key, v, n - 1) + Chain(mac, key, v, n)
  }

  /** How many blocks n octets need. */
  function BlocksFor(n: nat): (b: nat)
    ensures 32 * b - 32 < n <= 32 * b
  {
    (n + 31) / 32
  }

  /** HMAC_DRBG_Generate (section 10.1.2.5): the returned bits and the new state. */
  function Returned(mac: Mac, s: State, n: nat): (r: seq<Octet>)
    ensures |r| == n
  {
    Stream(mac, s.key, s.v, BlocksFor(n))[..n]
  }

  function Generate(mac: Mac, s: State, n: nat): State {
    Mix(mac, s.(v := Chain(mac, s.key, s.v, BlocksFor(n))), []).(counter := s.counter + 1)
  }

  function Next(mac: Mac, s: State, op: Op): State {
    match op
    case Instantiated(seed, extra) => MixExtra(mac, Instantiate(mac, seed), extra)
    case Reseeded(seed, extra) => MixExtra(mac, Mix(mac, s, seed), extra).(counter := 1)
    case Generated(n) => Generate(mac, s, n)
  }

  /** The state after a log, from the state s. */
  function Replay(mac: Mac, s: State, log: seq<Op>): State {
    if log == [] then s else Next(mac, Replay(mac, s, log[..|log| - 1]), log[|log| - 1])
  }

  /** What an operation returns after a log. */
  function Piece(mac: Mac, s: State, log: seq<Op>, op: Op): seq<Octet> {
    if op.Generated? then Returned(mac, Replay(mac, s, log), op.n) else []
  }

  /** Everything returned during a log. */
  function Output(mac: Mac, s: State, log: seq<Op>): seq<Octet> {
    if log == [] then []
    else Output(mac, s, log[..|log| - 1]) + Piece(mac, s, log[..|log| - 1], log[|log| - 1])
  }

  lemma OutputNext(mac: Mac, s: State, log: seq<Op>, op: Op)
    ensures Output(mac, s, log + [op]) == Output(mac, s, log) + Piece(mac, s, log, op)
  {
    Snoc(log, op);
  }

  /** Generate calls since the last seeding. */
  function SinceSeed(log: seq<Op>): nat {
    if log == [] || !log[|log| - 1].Generated? then 0 else SinceSeed(log[..|log| - 1]) + 1
  }

  /** A log the standard allows: it starts with instantiation, and seeds in time. */
  ghost predicate Allowed(log: seq<Op>) {
    log == [] ||
    (Allowed(log[..|log| - 1]) &&
     match log[|log| - 1]
     case Instantiated(seed, extra) => |log| == 1 && |seed| == 48 && (extra == [] || |extra| == 32)
     case Reseeded(seed, extra) => |log| > 1 && |seed| == 32 && (extra == [] || |extra| == 32)
     case Generated(n) => |log| > 1 && n <= GENERATE_MAXLEN && SinceSeed(log) <= RESEED_INTERVAL)
  }

  lemma Joined(a: seq<Octet>, b: seq<Octet>, c: seq<Octet>)
    ensures a + b + c == a + (b + c)
  {
  }

  lemma Snoc(log: seq<Op>, op: Op)
    ensures (log + [op])[..|log|] == log && (log + [op])[|log|] == op
  {
  }

  lemma {:induction false} GeneratedRun(log: seq<Op>, i: nat, j: nat)
    requires i <= j <= |log| && forall x :: i <= x < j ==> log[x].Generated?
    ensures SinceSeed(log[..j]) >= j - i
    decreases j - i
  {
    if i < j {
      assert log[..j][..j - 1] == log[..j - 1];
      GeneratedRun(log, i, j - 1);
    }
  }

  lemma {:induction false} AllowedPrefix(log: seq<Op>, j: nat)
    requires Allowed(log) && j <= |log|
    ensures Allowed(log[..j])
    decreases |log|
  {
    if j == |log| {
      assert log[..j] == log;
    } else {
      AllowedPrefix(log[..|log| - 1], j);
      assert log[..|log| - 1][..j] == log[..j];
    }
  }

  /** Among any 257 operations in a row, one is a seeding; no call returns more than 65536 octets. */
  lemma SeededInTime(log: seq<Op>, i: nat, j: nat)
    requires Allowed(log) && i < j <= |log| && forall x :: i <= x < j ==> log[x].Generated?
    ensures j - i <= 256 && log[i].n <= 65536
  {
    GeneratedRun(log, i, j);
    AllowedPrefix(log, j);
    AllowedPrefix(log, i + 1);
    assert log[..j][j - 1] == log[j - 1];
    assert log[..i + 1][i] == log[i];
  }

  // ---------------------------------------------------------------- the code

  /** mac is HMAC-SHA256 with the parameters p. */
  ghost predicate IsHmac(p: Params, mac: Mac) {
    forall k, x {:trigger HmacOf(p, k, x)} :: mac(k, x) == HmacOf(p, k, x)
  }

  /** HMAC_SHA256_Init, _Update, _Update, _Final */
  method MacOfTwo(p: Params, key: Digest, a: seq<Octet>, b: seq<Octet>, ghost mac: Mac) returns (d: Digest)
    requires IsHmac(p, mac)
    ensures d == mac(key, a + b)
  {
    var ctx := new Context256(p, key);
    ctx.Update(a);
    ctx.Update(b);
    assert [] + a + b == a + b;
    d := ctx.Final();
  }

  method MacOf(p: Params, key: Digest, a: seq<Octet>, ghost mac: Mac) returns (d: Digest)
    requires IsHmac(p, mac)
    ensures d == mac(key, a)
  {
    d := HmacBuf(p, key, a);
  }

  /** entropy_read(buf, n): fails, or provides n octets. A reliable source never fails. */
  method EntropyRead(n: nat, reliable: bool) returns (ok: bool, x: seq<Octet>)
    ensures (ok ==> |x| == n) && (reliable ==> ok)
  {
    ok :| reliable ==> ok;
    assert |seq<Octet>(n, _ => 0)| == n;
    x :| |x| == n;
  }

  /** generate_seed_rdrand, where the processor has it: 32 octets, or none. */
  method ExtraEntropy() returns (x: seq<Octet>)
    ensures x == [] || |x| == 32
  {
    assert |seq<Octet>(0, _ => 0)| == 0;
    x :| x == [] || |x| == 32;
  }

  class Generator {
    const p: Params
    ghost const mac: Mac
    var key: Digest
    var v: Digest
    var counter: nat
    var instantiated: bool
    ghost const start: State
    ghost var log: seq<Op>

    ghost predicate Valid()
      reads this
    {
      IsHmac(p, mac) && Allowed(log)
      && State(key, v, counter) == Replay(mac, start, log)
      && instantiated == (log != []) && (instantiated ==> counter == SinceSeed(log) + 1)
    }

    /** Static variables before the first call. */
    constructor (p: Params, ghost mac: Mac)
      requires IsHmac(p, mac)
      ensures Valid() && log == [] && this.p == p && this.mac == mac
    {
      this.p, this.mac := p, mac;
      key, v, counter := seq<Octet>(32, _ => 0), seq<Octet>(32, _ => 0), 0;
      start := State(seq<Octet>(32, _ => 0), seq<Octet>(32, _ => 0), 0);
      instantiated, log := false, [];
    }

    /** update(data, datalen) */
    method Update(data: seq<Octet>)
      requires IsHmac(p, mac)
      modifies this`key, this`v
      ensures State(key, v, counter) == Mix(mac, old(State(key, v, counter)), data)
    {
      var k1 := MacOfTwo(p, key, v + [0x00], data, mac);
      var v1 := MacOf(p, k1, v, mac);
      if data != [] {
        var k2 := MacOfTwo(p, k1, v1 + [0x01], data, mac);
        v1 := MacOf(p, k2, v1, mac);
        k1 := k2;
      }
      key, v := k1, v1;
    }

    /** update_from_rdrand() */
    method UpdateExtra() returns (ghost extra: seq<Octet>)
      requires IsHmac(p, mac)
      modifies this`key, this`v
      ensures extra == [] || |extra| == 32
      ensures State(key, v, counter) == MixExtra(mac, old(State(key, v, counter)), extra)
    {
      var x := ExtraEntropy();
      extra := x;
      if x != [] {
        Update(x);
      }
    }

    /** instantiate(); a failure changes nothing. */
    method Instantiate(reliable: bool) returns (ok: bool)
      requires Valid() && !instantiated
      modifies this
      ensures Valid() && instantiated == ok && (reliable ==> ok) && (ok ==> |log| == 1 && log[0].Instantiated?) && (!ok ==> log == [])
    {
      var seed;
      ok, seed := EntropyRead(48, reliable);
      if !ok {
        return;
      }
      key, v, counter := seq<Octet>(32, _ => 0x00), seq<Octet>(32, _ => 0x01), 1;
      Update(seed);
      ghost var extra := UpdateExtra();
      instantiated, log := true, [Instantiated(seed, extra)];
      assert log[..0] == [];
    }

    /** reseed(); a failure changes nothing. */
    method Reseed(reliable: bool) returns (ok: bool, ghost op: Op)
      requires Valid() && instantiated
      modifies this`key, this`v, this`counter, this`log
      ensures Valid() && log == if ok then old(log) + [op] else old(log)
      ensures (reliable ==> ok) && (ok ==> op.Reseeded? && counter == 1)
    {
      op := Reseeded([], []);
      var seed;
      ok, seed := EntropyRead(32, reliable);
      if !ok {
        return;
      }
      Update(seed);
      ghost var extra := UpdateExtra();
      counter := 1;
      op := Reseeded(seed, extra);
      Snoc(log, op);
      log := log + [op];
    }

    /** The loop of generate: buflen octets to the position pos of the buffer. */
    method Fill(buf: array<Octet>, pos: nat, n: nat) returns (ghost blocks: nat)
      requires IsHmac(p, mac) && pos + n <= buf.Length
      modifies this`v, buf
      ensures blocks == BlocksFor(n) && v == Chain(mac, key, old(v), blocks)
      ensures buf[..pos] == old(buf[..pos]) && buf[pos..pos + n] == Stream(mac, key, old(v), blocks)[..n]
    {
      blocks := 0;
      var bufpos := 0;
      while bufpos < n
        invariant bufpos == 32 * blocks < n + 32 && v == Chain(mac, key, old(v), blocks)
        invariant buf[..pos] == old(buf[..pos])
        invariant Filled(buf[..], pos, n, Stream(mac, key, old(v), blocks))
      {
        FillStep(buf, pos, n, bufpos, Stream(mac, key, old(v), blocks));
        bufpos, blocks := bufpos + 32, blocks + 1;
      }
    }

    /** One block of the loop. */
    method FillStep(buf: array<Octet>, pos: nat, n: nat, bufpos: nat, ghost before: seq<Octet>)
      requires IsHmac(p, mac) && pos + n <= buf.Length && bufpos < n && |before| == bufpos && Filled(buf[..], pos, n, before)
      modifies this`v, buf
      ensures v == mac(key, old(v)) && buf[..pos] == old(buf[..pos]) && Filled(buf[..], pos, n, before + v)
    {
      v := MacOf(p, key, v, mac);
      var clen := if n - bufpos >= 32 then 32 else n - bufpos;
      CopyBlock(buf, pos + bufpos, v, clen);
    }

    /** generate(buf, buflen) */
    method Generate(buf: array<Octet>, pos: nat, n: nat)
      requires Valid() && instantiated && pos + n <= buf.Length
      requires n <= GENERATE_MAXLEN && counter <= RESEED_INTERVAL
      modifies this`key, this`v, this`counter, this`log, buf
      ensures Valid() && log == old(log) + [Generated(n)] && counter == old(counter) + 1
      ensures buf[..pos + n] == old(buf[..pos]) + Returned(mac, Replay(mac, start, old(log)), n)
    {
      ghost var s := State(key, v, counter);
      ghost var blocks := Fill(buf, pos, n);
      Update([]);
      counter := counter + 1;
      Snoc(log, Generated(n));
      log := log + [Generated(n)];
      assert buf[..pos + n] == buf[..pos] + buf[pos..pos + n];
    }

    /** A state that has moved on from an earlier log, returning out. */
    ghost predicate Since(before: seq<Op>, out: seq<Octet>)
      reads this
    {
      |before| <= |log| && log[..|before|] == before
      && Output(mac, start, log) == Output(mac, start, before) + out
    }

    lemma SinceNext(before: seq<Op>, earlier: seq<Op>, op: Op, out: seq<Octet>)
      requires |before| <= |earlier| && earlier[..|before|] == before && log == earlier + [op]
      requires Output(mac, start, earlier) == Output(mac, start, before) + out
      ensures Since(before, out + Piece(mac, start, earlier, op))
    {
      OutputNext(mac, start, earlier, op);
      Joined(Output(mac, start, before), out, Piece(mac, start, earlier, op));
      assert log[..|before|] == earlier[..|before|];
    }

    /** Seed anew once the interval is used up. */
    method ReseedIfNeeded(reliable: bool, ghost before: seq<Op>, ghost out: seq<Octet>) returns (ok: bool)
      requires Valid() && instantiated && Since(before, out)
      modifies this`key, this`v, this`counter, this`log
      ensures Valid() && Since(before, out) && (ok ==> counter <= RESEED_INTERVAL)
      ensures if old(counter) <= RESEED_INTERVAL then ok && counter == old(counter) else reliable ==> ok
    {
      ok := true;
      if counter > RESEED_INTERVAL {
        ghost var earlier := log;
        ghost var op;
        ok, op := Reseed(reliable);
        if ok {
          SinceNext(before, earlier, op, out);
          assert out + [] == out;
        }
      }
    }

    /** One turn of the loop: reseed if needed, then generate. */
    method Provide(buf: array<Octet>, pos: nat, n: nat, reliable: bool, ghost before: seq<Op>) returns (ok: bool)
      requires Valid() && instantiated && pos + n <= buf.Length && n <= GENERATE_MAXLEN
      requires Since(before, buf[..pos])
      modifies this`key, this`v, this`counter, this`log, buf
      ensures Valid() && Since(before, buf[..if ok then pos + n else pos])
      ensures if old(counter) <= RESEED_INTERVAL then ok && counter == old(counter) + 1 else reliable ==> ok
    {
      ok := ReseedIfNeeded(reliable, before, buf[..pos]);
      if ok {
        ghost var earlier := log;
        ghost var out := buf[..pos];
        Generate(buf, pos, n);
        SinceNext(before, earlier, Generated(n), out);
      }
    }

    /** Providing n octets takes a seed: the first one, or one for an interval that is used up on the way. */
    ghost predicate NeedsSeed(n: nat)
      reads this
    {
      !instantiated || (n > 0 && counter + (n - 1) / GENERATE_MAXLEN > RESEED_INTERVAL)
    }

    /** crypto_entropy_read(buf, buflen); it fails only if a seed is needed and the source does not give one. */
    method Read(buf: array<Octet>, reliable: bool) returns (ok: bool, ghost provided: nat)
      requires Valid()
      modifies this, buf
      ensures Valid() && provided <= buf.Length && (ok ==> provided == buf.Length)
      ensures Since(old(log), buf[..provided])
      ensures !ok ==> !reliable && old(NeedsSeed(buf.Length))
    {
      ghost var before, needed, used := log, NeedsSeed(buf.Length), 0;
      provided := 0;
      if !instantiated {
        ok := Instantiate(reliable);
        if !ok {
          assert Output(mac, start, log) == Output(mac, start, before) + buf[..0];
          return;
        }
        assert log[..0] == [];
      }
      assert Since(before, buf[..0]);
      var pos := 0;
      while pos < buf.Length
        invariant pos <= buf.Length && Valid() && instantiated
        invariant Since(before, buf[..pos])
        invariant needed || (counter == old(counter) + used && (pos < buf.Length ==> pos == used * GENERATE_MAXLEN))
      {
        assert needed || counter <= RESEED_INTERVAL by {
          if !needed {
            assert used <= (buf.Length - 1) / GENERATE_MAXLEN;
          }
        }
        var n := if buf.Length - pos > GENERATE_MAXLEN then GENERATE_MAXLEN else buf.Length - pos;
        ok := Provide(buf, pos, n, reliable, before);
        if !ok {
          provided := pos;
          return;
        }
        pos, used := pos + n, used + 1;
      }
      ok, provided := true, pos;
    }
  }

  /** The part of the buffer from pos on holds the start of s. */
  ghost predicate Filled(buf: seq<Octet>, pos: nat, n: nat, s: seq<Octet>) {
    pos + n <= |buf| && forall x :: 0 <= x < |s| && x < n ==> buf[pos + x] == s[x]
  }

  /** memcpy(&buf[pos], v, clen) */
  method CopyBlock(buf: array<Octet>, pos: nat, v: Digest, clen: nat)
    requires pos + clen <= buf.Length && clen <= 32
    modifies buf
    ensures forall x :: 0 <= x < buf.Length ==> buf[x] == if pos <= x < pos + clen then v[x - pos] else old(buf[x])
  {
    forall x | 0 <= x < clen {
      buf[pos + x] := v[x];
    }
  }
}
