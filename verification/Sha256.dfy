/**
 Streaming SHA-256 (alg/sha256.c), for any compression function and initial hash
 value; module Sha256Transform has the compression function of the code.
 */
module Sha256 {
  import opened Machine
  import opened Words
  import opened Octets
  import opened BlockStream
  import opened Sha256Transform

  /** A compression function and the hash value it starts from. */
  datatype Params = Params(iv: Hash, compress: (Hash, seq<Octet>) -> Hash)

  /** The parameters of SHA-256 with round constants k. */
  function Sha256Params(k: seq<Word>, iv: Hash): Params
    requires |k| == 64
  {
    Params(iv, (h, b) => if |b| == 64 then Compress(k, h, b) else h)
  }

  /** SHA256_Transform computes that compression function. */
  method TransformBlock(k: seq<Word>, iv: Hash, state: Hash, block: seq<Octet>) returns (r: Hash)
    requires |k| == 64 && |block| == 64
    ensures r == Sha256Params(k, iv).compress(state, block)
  {
    r := Transform(k, state, block);
  }

  /** be32enc_vect(digest, state, 32) */
  function Encode(h: seq<Word>): (d: seq<Octet>)
    ensures |d| == 4 * |h|
  {
    if h == [] then [] else Encode(h[..|h| - 1]) + BigEndian(Value(h[|h| - 1]), 4)
  }

  /** The length of a message in bits, modulo 2^64. */
  function BitCount(n: nat): (c: nat)
    ensures c < TWO64 && exists q: nat :: 8 * n == c + TWO64 * q
  {
    assert 8 * n == 8 * n % TWO64 + TWO64 * (8 * n / TWO64);
    8 * n % TWO64
  }

  /** The hash of a message (section 6.2 of FIPS 180-4). */
  function Hash256(p: Params, msg: seq<Octet>): (d: seq<Octet>)
    ensures |d| == 32
  {
    Encode(Fold(p.compress, p.iv, Padded(msg, Be64(BitCount(|msg|)))))
  }

  /** A padded message ends with the number of its bits, modulo 2^64. */
  lemma LengthField(msg: seq<Octet>)
    ensures var m := Padded(msg, Be64(BitCount(|msg|)));
            |m| >= 8 && FromBigEndian(m[|m| - 8..]) == 8 * |msg| % TWO64
  {
    var c := BitCount(|msg|);
    var m := Padded(msg, Be64(c));
    assert m[|m| - 8..] == Be64(c);
    Pow256Of8();
    BigEndianReads(c, 8);
    SmallRemainder(c, Pow256(8));
  }

  /** Each word of a hash is written in four octets, most significant first. */
  lemma {:induction false} EncodedAt(h: seq<Word>, i: nat)
    requires i < |h|
    ensures FromBigEndian(Encode(h)[4 * i..4 * i + 4]) == Value(h[i])
    decreases |h|
  {
    var n := |h| - 1;
    if i < n {
      EncodedAt(h[..n], i);
      assert Encode(h)[4 * i..4 * i + 4] == Encode(h[..n])[4 * i..4 * i + 4];
    } else {
      assert Encode(h)[4 * i..4 * i + 4] == BigEndian(Value(h[n]), 4);
      EncodedWord(h[n], |h[n]|);
    }
  }

  lemma EncodedWord(w: Word, n: nat)
    requires n == |w|
    ensures FromBigEndian(BigEndian(Value(w), 4)) == Value(w)
  {
    BigEndianReads(Value(w), 4);
    Pow256Of8();
    Pow2Of32(n);
    ValueBound(w, n, Pow2(n));
    SmallRemainder(Value(w), Pow256(4));
  }

  lemma BitCountAdd(n: nat, m: nat)
    ensures (BitCount(n) + 8 * m) % TWO64 == BitCount(n + m)
  {
  }

  /** The count tells how many octets follow the n whole blocks. */
  lemma Buffered(n: nat, r: nat)
    requires r < 64
    ensures BitCount(64 * n + r) / 8 % 64 == r
  {
    var q: nat :| 8 * (64 * n + r) == BitCount(64 * n + r) + TWO64 * q;
    BufferedOctets(n, r, BitCount(64 * n + r), q);
  }

  class Context {
    const p: Params
    var state: Hash
    var count: nat  // bits, modulo 2^64
    var buf: seq<Octet>
    ghost var done: seq<Octet>  // the whole blocks fed since initialization
    ghost var blocks: nat
    ghost var rest: nat

    ghost predicate Valid()
      reads this
    {
      |buf| == 64 && rest < 64 && Mixed(p.compress, p.iv, done, blocks, state)
      && count == BitCount(64 * blocks + rest)
    }

    /** Everything fed since initialization. */
    ghost function Msg(): seq<Octet>
      requires |buf| == 64 && rest < 64
      reads this
    {
      done + buf[..rest]
    }

    /** SHA256_Init(ctx); the buffer stays uninitialized. */
    constructor (p: Params)
      ensures Valid() && Msg() == [] && this.p == p
    {
      assert |ZeroOctets(64)| == 64;
      var anything: seq<Octet> :| |anything| == 64;
      this.p, state, count, buf := p, p.iv, 0, anything;
      done, blocks, rest := [], 0, 0;
    }

    /** memcpy of a context. */
    constructor Clone(c: Context)
      requires c.Valid()
      ensures Valid() && Msg() == c.Msg() && p == c.p
    {
      p, state, count, buf := c.p, c.state, c.count, c.buf;
      done, blocks, rest := c.done, c.blocks, c.rest;
    }

    /** SHA256_Update_internal(ctx, in, len, tmp32) */
    method Update(src: seq<Octet>)
      requires Valid()
      modifies this
      ensures Valid() && Msg() == old(Msg()) + src
    {
      if |src| == 0 {
        return;
      }
      Buffered(blocks, rest);
      var r := count / 8 % 64;
      BitCountAdd(64 * blocks + rest, |src|);
      count := (count + 8 * |src|) % TWO64;
      if |src| < 64 - r {
        buf := Patch(buf, r, src);
        rest := rest + |src|;
      } else {
        ghost var length := |Msg() + src|;
        state, buf, done, blocks, rest := Absorb(p.compress, p.iv, done, blocks, state, buf, r, src);
        assert |done + buf[..rest]| == length;
      }
    }

    /** Mix in the final block, which holds 56 octets before the length. */
    method Finish(ghost whole: seq<Octet>, ghost n: nat, ghost msg: seq<Octet>)
      requires |buf| == 64 && Mixed(p.compress, p.iv, whole, n, state)
      requires whole + buf[..56] + Be64(count) == Padded(msg, Be64(count))
      modifies this`state, this`buf
      ensures state == Fold(p.compress, p.iv, Padded(msg, Be64(count)))
    {
      ghost var before := buf[..56];
      buf := Patch(buf, 56, Be64(count));
      MixedNext(p.compress, p.iv, whole, n, state, buf);
      assert buf == buf[..64];
      assert whole + buf == whole + before + Be64(count);
      state := p.compress(state, buf);
    }

    /** SHA256_Pad(ctx, tmp32) */
    method Pad()
      requires Valid()
      modifies this`state, this`buf
      ensures state == Fold(p.compress, p.iv, Padded(old(Msg()), Be64(count)))
    {
      Buffered(blocks, rest);
      var r := count / 8 % 64;
      ghost var msg := Msg();
      ghost var whole := done;
      if r < 56 {
        PadShort(done, blocks, buf[..r], Be64(count));
        buf := Patch(buf, r, Pad80(56 - r));
        Finish(done, blocks, msg);
      } else {
        PadLong(done, blocks, buf[..r], Be64(count));
        buf := Patch(buf, r, Pad80(64 - r));
        assert buf == buf[..64];
        MixedNext(p.compress, p.iv, done, blocks, state, buf);
        whole := done + buf;
        state := p.compress(state, buf);
        buf := Patch(buf, 0, ZeroOctets(56));
        Finish(whole, blocks + 1, msg);
      }
    }

    /** SHA256_Final_internal(digest, ctx, tmp32) */
    method Final() returns (digest: seq<Octet>)
      requires Valid()
      modifies this`state, this`buf
      ensures digest == Hash256(p, old(Msg()))
    {
      Pad();
      digest := Encode(state);
    }
  }

  /** The length still fits into the current block. */
  lemma PadShort(done: seq<Octet>, n: nat, rest: seq<Octet>, length: seq<Octet>)
    requires |done| == 64 * n && |rest| < 56 && |length| == 8
    ensures done + (rest + Pad80(56 - |rest|)) + length == Padded(done + rest, length)
  {
    PadZerosRest(n, |rest|);
  }

  /** The length needs another block, which starts with zeros. */
  lemma PadLong(done: seq<Octet>, n: nat, rest: seq<Octet>, length: seq<Octet>)
    requires |done| == 64 * n && 56 <= |rest| < 64 && |length| == 8
    ensures done + (rest + Pad80(64 - |rest|)) + ZeroOctets(56) + length == Padded(done + rest, length)
  {
    PadZerosRest(n, |rest|);
    assert ZeroOctets(119 - |rest|) == ZeroOctets(63 - |rest|) + ZeroOctets(56);
  }

  /** SHA256_Buf(in, len, digest) */
  method HashBuf(p: Params, x: seq<Octet>) returns (digest: seq<Octet>)
    ensures digest == Hash256(p, x)
  {
    var ctx := new Context(p);
    ctx.Update(x);
    assert [] + x == x;
    digest := ctx.Final();
  }
}
