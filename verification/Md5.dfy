/**
 Streaming MD5 (alg/md5.c) for any block function: the bit count is kept in two
 32-bit words, and padding is fed through the same update function as the message.
 */
module Md5 {
  import opened Machine
  import opened Words
  import opened Octets
  import opened BlockStream

  const TWO29: nat := 0x2000_0000

  datatype Params = Params(iv: seq<Word>, transform: (seq<Word>, seq<Octet>) -> seq<Word>)

  /** The two 32-bit words of a bit count. */
  datatype Count = Count(low: nat, high: nat)

  ghost predicate IsCount(c: Count, bits: nat) {
    c.low < TWO32 && c.high < TWO32 && c.low + TWO32 * c.high == bits % TWO64
  }

  /** The carry of the counter, as unsigned overflow. */
  function AddOctets(c: Count, len: nat): Count {
    var bitlen0 := len % TWO32 * 8 % TWO32;
    var bitlen1 := len / TWO29 % TWO32;
    var low := (c.low + bitlen0) % TWO32;
    var high := if low < bitlen0 then (c.high + 1) % TWO32 else c.high;
    Count(low, (high + bitlen1) % TWO32)
  }

  /** The two words of bitlen are the low and the high half of 8 * len. */
  lemma BitLength(len: nat)
    ensures len % TWO32 * 8 % TWO32 + TWO32 * (len / TWO29) == 8 * len
  {
    var k, x := len / TWO29, len % TWO29;
    Wrapped(len, k, x);
    var j := k - 8 * (len / TWO32);
    assert len % TWO32 == x + TWO29 * j;
    assert len % TWO32 * 8 == 8 * x + TWO32 * j;
    LowPart(8 * x, j);
  }

  lemma Wrapped(len: nat, k: nat, x: nat)
    requires k == len / TWO29 && x == len % TWO29
    ensures len == TWO29 * k + x && x < TWO29
    ensures len == TWO32 * (len / TWO32) + len % TWO32
  {
  }

  lemma LowPart(x: nat, j: int)
    requires x < TWO32 && x + TWO32 * j >= 0
    ensures (x + TWO32 * j) % TWO32 == x
  {
  }

  /** Equal numbers up to a multiple of 2^64. */
  lemma Congruent(a: nat, b: nat, q: int)
    requires a == b + TWO64 * q
    ensures a % TWO64 == b % TWO64
  {
  }

  lemma LowSum(a: nat, b: nat)
    requires a < TWO32 && b < TWO32
    ensures a + b == (a + b) % TWO32 + TWO32 * (if (a + b) % TWO32 < b then 1 else 0)
  {
  }

  lemma Reduced(bits: nat, more: nat, c: nat, r: nat, q: nat)
    requires c == bits % TWO64 && r + TWO64 * q == c + more && r < TWO64
    ensures r == (bits + more) % TWO64
  {
    assert bits == bits % TWO64 + TWO64 * (bits / TWO64);
    Congruent(bits + more, r, bits / TWO64 + q);
  }

  lemma HighWord(v: nat)
    ensures v % TWO32 < TWO32 && v == TWO32 * (v / TWO32) + v % TWO32
  {
  }

  /** The code's order of additions, in one sum. */
  lemma HighSum(high: nat, carry: bool, b1: nat)
    requires high < TWO32
    ensures ((if carry then (high + 1) % TWO32 else high) + b1 % TWO32) % TWO32 == (high + (if carry then 1 else 0) + b1) % TWO32
  {
  }

  /** Adding to the two words adds eight times the length, modulo 2^64. */
  lemma CountAdds(c: Count, bits: nat, len: nat)
    requires IsCount(c, bits)
    ensures IsCount(AddOctets(c, len), bits + 8 * len)
  {
    BitLength(len);
    var b0, b1 := len % TWO32 * 8 % TWO32, len / TWO29;
    var low := (c.low + b0) % TWO32;
    var carry := low < b0;
    var k := if carry then 1 else 0;
    LowSum(c.low, b0);
    HighSum(c.high, carry, b1);
    var sum := c.high + k + b1;
    HighWord(sum);
    var r := AddOctets(c, len);
    assert r.high == sum % TWO32;
    assert r.low + TWO32 * r.high + TWO64 * (sum / TWO32) == c.low + TWO32 * c.high + 8 * len;
    Reduced(bits, 8 * len, c.low + TWO32 * c.high, r.low + TWO32 * r.high, sum / TWO32);
  }

  /** The low word alone tells how many octets are buffered. */
  lemma Buffered(c: Count, n: nat, r: nat)
    requires r < 64 && IsCount(c, 8 * (64 * n + r))
    ensures c.low / 8 % 64 == r
  {
    var bits := 8 * (64 * n + r);
    assert bits == bits % TWO64 + TWO64 * (bits / TWO64);
    var j := n - 0x80_0000 * c.high - 0x80_0000_0000_0000 * (bits / TWO64);
    assert c.low == 8 * (64 * j + r);
    EighthRest(j, r);
  }

  method BufferedOf(c: Count, ghost n: nat, ghost rest: nat) returns (r: nat)
    requires rest < 64 && IsCount(c, 8 * (64 * n + rest))
    ensures r == rest
  {
    Buffered(c, n, rest);
    r := c.low / 8 % 64;
  }

  /** Count len more octets after n. */
  method Advance(c: Count, ghost n: nat, len: nat) returns (c': Count)
    requires IsCount(c, 8 * n)
    ensures IsCount(c', 8 * (n + len))
  {
    CountAdds(c, 8 * n, len);
    c' := AddOctets(c, len);
  }

  /** Two encoded words are the encoded 64-bit count. */
  lemma {:induction false} EncodePair(low: nat, high: nat, n: nat, k: nat)
    requires low < Shift(1, n)
    ensures LittleEndian(low, n) + LittleEndian(high, k) == LittleEndian(low + Shift(high, n), n + k)
    decreases n
  {
    if n == 0 {
      assert LittleEndian(low, 0) + LittleEndian(high, k) == LittleEndian(high, k);
    } else {
      EncodePair(low / 256, high, n - 1, k);
      Shifted(low, Shift(high, n - 1));
      Behead(low % 256, LittleEndian(low / 256, n - 1), LittleEndian(high, k));
    }
  }

  lemma Behead(x: Octet, a: seq<Octet>, b: seq<Octet>)
    ensures [x] + a + b == [x] + (a + b)
  {
  }

  lemma Shifted(low: nat, x: nat)
    ensures (low + 256 * x) % 256 == low % 256 && (low + 256 * x) / 256 == low / 256 + x
  {
  }

  /** v moved up by n octets. */
  function Shift(v: nat, n: nat): nat {
    if n == 0 then v else 256 * Shift(v, n - 1)
  }

  /** le32enc_vect(len, count, 8) */
  function EncodeCount(c: Count): (s: seq<Octet>)
    ensures |s| == 8
  {
    LittleEndian(c.low, 4) + LittleEndian(c.high, 4)
  }

  lemma Shift4(v: nat)
    ensures Shift(v, 4) == TWO32 * v
  {
    assert Shift(v, 2) == 256 * Shift(v, 1) == 65536 * v;
    assert Shift(v, 4) == 256 * Shift(v, 3) == 65536 * Shift(v, 2);
  }

  lemma EncodesBits(c: Count, bits: nat)
    requires IsCount(c, bits)
    ensures EncodeCount(c) == LittleEndian(bits % TWO64, 8)
  {
    Shift4(1);
    Shift4(c.high);
    EncodePair(c.low, c.high, 4, 4);
  }

  /** The state of MD5 after the padded message (section 3 of RFC 1321). */
  function Md5State(p: Params, msg: seq<Octet>): seq<Word> {
    Fold(p.transform, p.iv, Padded(msg, LittleEndian(8 * |msg| % TWO64, 8)))
  }

  class Context {
    const p: Params
    var state: seq<Word>
    var count: Count
    var buf: seq<Octet>
    ghost var done: seq<Octet>  // the whole blocks fed since initialization
    ghost var blocks: nat
    ghost var rest: nat

    ghost predicate Valid()
      reads this
    {
      |buf| == 64 && rest < 64 && Mixed(p.transform, p.iv, done, blocks, state)
      && IsCount(count, 8 * (64 * blocks + rest))
    }

    /** Everything fed since initialization. */
    ghost function Msg(): seq<Octet>
      requires |buf| == 64 && rest < 64
      reads this
    {
      done + buf[..rest]
    }

    /** MD5_Init(ctx); the buffer stays uninitialized. */
    constructor (p: Params)
      ensures Valid() && Msg() == [] && this.p == p
    {
      assert |ZeroOctets(64)| == 64;
      var anything: seq<Octet> :| |anything| == 64;
      this.p, state, count, buf := p, p.iv, Count(0, 0), anything;
      done, blocks, rest := [], 0, 0;
    }

    /** MD5_Update(ctx, in, len) */
    method Update(src: seq<Octet>)
      requires Valid()
      modifies this
      ensures Valid() && Msg() == old(Msg()) + src
    {
      if |src| == 0 {
        return;
      }
      var r := BufferedOf(count, blocks, rest);
      count := Advance(count, 64 * blocks + rest, |src|);
      if |src| < 64 - r {
        buf := Patch(buf, r, src);
        rest := rest + |src|;
      } else {
        ghost var length := |Msg() + src|;
        state, buf, done, blocks, rest := Absorb(p.transform, p.iv, done, blocks, state, buf, r, src);
        assert |done + buf[..rest]| == length;
      }
    }

    /** MD5_Pad(ctx): the length is encoded before padding changes the count. */
    method Pad()
      requires Valid()
      modifies this
      ensures state == Md5State(p, old(Msg()))
    {
      ghost var msg := Msg();
      EncodesBits(count, 8 * (64 * blocks + rest));
      var len := EncodeCount(count);
      PadZerosRest(blocks, rest);
      var r := BufferedOf(count, blocks, rest);
      var plen := if r < 56 then 56 - r else 120 - r;
      assert Pad80(plen) == [0x80] + ZeroOctets(PadZeros(|msg|));
      Update(Pad80(plen));
      Update(len);
      MixedShort(p.transform, p.iv, done, blocks, state, buf[..rest]);
    }

    /** MD5_Final(digest, ctx) */
    method Final() returns (digest: seq<Octet>)
      requires Valid()
      modifies this
      ensures digest == Md5Of(p, old(Msg()))
    {
      Pad();
      digest := Encode(state);
    }
  }

  /** le32enc_vect(digest, state, 16) */
  function Encode(h: seq<Word>): (d: seq<Octet>)
    ensures |d| == 4 * |h|
  {
    if h == [] then [] else Encode(h[..|h| - 1]) + LittleEndian(Value(h[|h| - 1]), 4)
  }

  /** Each word of the state is written in four octets, least significant first. */
  lemma {:induction false} EncodedAt(h: seq<Word>, i: nat)
    requires i < |h|
    ensures FromLittleEndian(Encode(h)[4 * i..4 * i + 4]) == Value(h[i])
    decreases |h|
  {
    var n := |h| - 1;
    if i < n {
      EncodedAt(h[..n], i);
      assert Encode(h)[4 * i..4 * i + 4] == Encode(h[..n])[4 * i..4 * i + 4];
    } else {
      assert Encode(h)[4 * i..4 * i + 4] == LittleEndian(Value(h[n]), 4);
      EncodedWord(h[n], |h[n]|);
    }
  }

  lemma EncodedWord(w: Word, n: nat)
    requires n == |w|
    ensures FromLittleEndian(LittleEndian(Value(w), 4)) == Value(w)
  {
    LittleEndianReads(Value(w), 4);
    Pow256Of8();
    Pow2Of32(n);
    ValueBound(w, n, Pow2(n));
    SmallRemainder(Value(w), Pow256(4));
  }

  /** A padded message ends with the number of its bits, modulo 2^64. */
  lemma LengthField(msg: seq<Octet>)
    ensures var m := Padded(msg, LittleEndian(8 * |msg| % TWO64, 8));
            |m| >= 8 && FromLittleEndian(m[|m| - 8..]) == 8 * |msg| % TWO64
  {
    var c := 8 * |msg| % TWO64;
    var m := Padded(msg, LittleEndian(c, 8));
    assert m[|m| - 8..] == LittleEndian(c, 8);
    Pow256Of8();
    LittleEndianReads(c, 8);
    SmallRemainder(c, Pow256(8));
  }

  /** The digest of a message. */
  function Md5Of(p: Params, msg: seq<Octet>): seq<Octet> {
    Encode(Md5State(p, msg))
  }

  /** MD5_Buf(in, len, digest) */
  method HashBuf(p: Params, x: seq<Octet>) returns (digest: seq<Octet>)
    ensures digest == Md5Of(p, x)
  {
    var ctx := new Context(p);
    ctx.Update(x);
    assert [] + x == x;
    digest := ctx.Final();
  }
}
