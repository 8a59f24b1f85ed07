/**
 The buffering shared by SHA256_Update (alg/sha256.c) and MD5_Update (alg/md5.c):
 a message arrives in pieces of any length and is mixed in blocks of 64 octets.
 */
module BlockStream {
  import opened Octets

  /** The state after the whole blocks of data; octets that do not fill a block are ignored. */
  function Fold<H>(f: (H, seq<Octet>) -> H, h: H, data: seq<Octet>): H
    decreases |data|
  {
    if |data| < 64 then h else Fold(f, f(h, data[..64]), data[64..])
  }

  lemma {:induction false} FoldAppend<H>(f: (H, seq<Octet>) -> H, h: H, a: seq<Octet>, n: nat, b: seq<Octet>)
    requires |a| == 64 * n
    ensures Fold(f, h, a + b) == Fold(f, Fold(f, h, a), b)
    decreases n
  {
    if n == 0 {
      assert a + b == b;
    } else {
      assert (a + b)[..64] == a[..64] && (a + b)[64..] == a[64..] + b;
      FoldAppend(f, f(h, a[..64]), a[64..], n - 1, b);
    }
  }

  /** done consists of n blocks, and state is the result of mixing them. */
  ghost predicate Mixed<H>(f: (H, seq<Octet>) -> H, iv: H, done: seq<Octet>, n: nat, state: H) {
    |done| == 64 * n && state == Fold(f, iv, done)
  }

  lemma MixedNext<H>(f: (H, seq<Octet>) -> H, iv: H, done: seq<Octet>, n: nat, state: H, block: seq<Octet>)
    requires Mixed(f, iv, done, n, state) && |block| == 64
    ensures Mixed(f, iv, done + block, n + 1, f(state, block))
  {
    FoldAppend(f, iv, done, n, block);
    assert block[..64] == block;
    assert Fold(f, state, block) == Fold(f, f(state, block), []);
  }

  lemma MixedShort<H>(f: (H, seq<Octet>) -> H, iv: H, done: seq<Octet>, n: nat, state: H, rest: seq<Octet>)
    requires Mixed(f, iv, done, n, state) && |rest| < 64
    ensures Fold(f, iv, done + rest) == state
  {
    FoldAppend(f, iv, done, n, rest);
  }

  /** The loop over complete blocks of the input. */
  method CompleteBlocks<H>(f: (H, seq<Octet>) -> H, ghost iv: H, ghost done: seq<Octet>, ghost n: nat,
                           before: H, src: seq<Octet>, start: nat)
    returns (state: H, pos: nat, ghost m: nat)
    requires Mixed(f, iv, done, n, before) && start <= |src|
    ensures start <= pos <= |src| < pos + 64
    ensures Mixed(f, iv, done + src[start..pos], m, state)
  {
    state, pos, m := before, start, n;
    assert done + src[start..pos] == done;
    while |src| - pos >= 64
      invariant start <= pos <= |src|
      invariant Mixed(f, iv, done + src[start..pos], m, state)
    {
      MixedNext(f, iv, done + src[start..pos], m, state, src[pos..pos + 64]);
      assert done + src[start..pos] + src[pos..pos + 64] == done + src[start..pos + 64];
      state := f(state, src[pos..pos + 64]);
      pos, m := pos + 64, m + 1;
    }
  }

  /**
   The input completes the block that has r octets so far: mix it and the complete
   blocks that follow, and keep the rest.
   */
  method Absorb<H>(f: (H, seq<Octet>) -> H, ghost iv: H, ghost done: seq<Octet>, ghost n: nat,
                   before: H, buf: seq<Octet>, r: nat, src: seq<Octet>)
    returns (state: H, buf': seq<Octet>, ghost done': seq<Octet>, ghost n': nat, ghost r': nat)
    requires Mixed(f, iv, done, n, before) && |buf| == 64 && r < 64 && |src| >= 64 - r
    ensures Mixed(f, iv, done', n', state) && |buf'| == 64 && r' < 64
    ensures done' + buf'[..r'] == done + buf[..r] + src
  {
    var block := Patch(buf, r, src[..64 - r]);
    assert block[..64] == block;
    MixedNext(f, iv, done, n, before, block);
    ghost var first := done + block;
    var pos;
    state, pos, n' := CompleteBlocks(f, iv, first, n + 1, f(before, block), src, 64 - r);
    buf' := Patch(block, 0, src[pos..]);
    done', r' := first + src[64 - r..pos], |src| - pos;
    Regroup(done, buf[..r], src, 64 - r, pos);
    assert block[..0] + src[pos..] == src[pos..];
  }

  lemma Regroup(d: seq<Octet>, b: seq<Octet>, s: seq<Octet>, i: nat, j: nat)
    requires i <= j <= |s|
    ensures d + (b + s[..i]) + s[i..j] + s[j..] == d + b + s
  {
    assert s == s[..i] + s[i..j] + s[j..];
  }

  // ----------------------------------------------------------------- padding

  function ZeroOctets(n: nat): (z: seq<Octet>)
    ensures |z| == n
  {
    seq<Octet>(n, _ => 0)
  }

  /** How many zero octets follow the 0x80: the least number that makes the length 56 modulo 64. */
  function PadZeros(n: nat): (z: nat)
    ensures z < 64 && (n + 1 + z) % 64 == 56
  {
    if n % 64 < 56 then 55 - n % 64 else 119 - n % 64
  }

  /**
   A message followed by a one bit, the least number of zero bits and a 64-bit
   length (section 5.1.1 of FIPS 180-4 and section 3 of RFC 1321).
   */
  function Padded(msg: seq<Octet>, length: seq<Octet>): (m: seq<Octet>)
    requires |length| == 8
    ensures |m| % 64 == 0
  {
    PaddedLength(|msg|);
    msg + ([0x80] + ZeroOctets(PadZeros(|msg|))) + length
  }

  lemma PaddedLength(n: nat)
    ensures (n + (1 + PadZeros(n)) + 8) % 64 == 0
  {
  }

  /** The first n octets of the constant PAD. */
  function Pad80(n: nat): (s: seq<Octet>)
    requires 1 <= n <= 64
    ensures |s| == n
  {
    [0x80] + ZeroOctets(n - 1)
  }

  /** Padding in terms of the whole blocks and the remaining octets of the message. */
  lemma PadZerosRest(n: nat, r: nat)
    requires r < 64
    ensures (64 * n + r) % 64 == r
    ensures PadZeros(64 * n + r) == if r < 56 then 55 - r else 119 - r
  {
  }

  /** A bit count modulo 2^64 still tells how many octets are buffered. */
  lemma BufferedOctets(n: nat, r: nat, count: nat, q: nat)
    requires r < 64 && 8 * (64 * n + r) == count + 0x1_0000_0000_0000_0000 * q
    ensures count / 8 % 64 == r
  {
    var j := n - q * 0x80_0000_0000_0000;
    assert count == 8 * (64 * j + r);
    EighthRest(j, r);
  }

  lemma EighthRest(j: int, r: nat)
    requires r < 64 && 64 * j + r >= 0
    ensures 8 * (64 * j + r) / 8 % 64 == r
  {
  }
}
