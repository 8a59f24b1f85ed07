/**
 AES in counter mode (crypto/crypto_aesctr.c, crypto/crypto_aesctr_shared.c and
 crypto/crypto_aesctr_aesni.c), over an arbitrary block cipher.
 */
module AesCtr {
  import opened Octets

  type Block = b: seq<Octet> | |b| == 16 witness seq(16, _ => 0)

  /** An expanded key, as the permutation of blocks it stands for. */
  type Cipher = Block -> Block

  const UINT64_MAX: nat := 0xffff_ffff_ffff_ffff

  /** Octet i of the key stream: octet i mod 16 of the encrypted counter block i / 16. */
  function KeyStream(key: Cipher, nonce: nat, i: nat): Octet {
    key(Be64(nonce) + Be64(i / 16))[i % 16]
  }

  function KeyStreamFrom(key: Cipher, nonce: nat, ctr: nat, n: nat): (k: seq<Octet>)
    ensures |k| == n
  {
    seq<Octet>(n, i requires 0 <= i < n => KeyStream(key, nonce, ctr + i))
  }

  function XorAll(x: seq<Octet>, k: seq<Octet>): (y: seq<Octet>)
    requires |k| == |x|
    ensures |y| == |x|
  {
    seq(|x|, i requires 0 <= i < |x| => Xor8(x[i], k[i]))
  }

  /** Counter mode on a whole message that starts at position ctr of the stream
      (section 6.5 of NIST SP 800-38A). */
  function Ctr(key: Cipher, nonce: nat, ctr: nat, x: seq<Octet>): (y: seq<Octet>)
    ensures |y| == |x|
  {
    XorAll(x, KeyStreamFrom(key, nonce, ctr, |x|))
  }

  lemma XorAllTwice(x: seq<Octet>, k: seq<Octet>)
    requires |k| == |x|
    ensures XorAll(XorAll(x, k), k) == x
  {
    forall i | 0 <= i < |x|
      ensures XorAll(XorAll(x, k), k)[i] == x[i]
    {
      Xor8Twice(x[i], k[i]);
    }
  }

  lemma XorAllConcat(x: seq<Octet>, k: seq<Octet>, y: seq<Octet>, l: seq<Octet>)
    requires |k| == |x| && |l| == |y|
    ensures XorAll(x + y, k + l) == XorAll(x, k) + XorAll(y, l)
  {
  }

  lemma KeyStreamConcat(key: Cipher, nonce: nat, ctr: nat, m: nat, n: nat)
    ensures KeyStreamFrom(key, nonce, ctr, m + n) == KeyStreamFrom(key, nonce, ctr, m) + KeyStreamFrom(key, nonce, ctr + m, n)
  {
    var whole, first, rest := KeyStreamFrom(key, nonce, ctr, m + n), KeyStreamFrom(key, nonce, ctr, m), KeyStreamFrom(key, nonce, ctr + m, n);
    forall i | 0 <= i < m + n
      ensures whole[i] == (first + rest)[i]
    {
      if i >= m {
        assert ctr + m + (i - m) == ctr + i;
      }
    }
  }

  /** Decryption is encryption from the same position. */
  lemma CtrTwice(key: Cipher, nonce: nat, ctr: nat, x: seq<Octet>)
    ensures Ctr(key, nonce, ctr, Ctr(key, nonce, ctr, x)) == x
  {
    XorAllTwice(x, KeyStreamFrom(key, nonce, ctr, |x|));
  }

  /** Splitting a message into calls does not change the result. */
  lemma CtrSplit(key: Cipher, nonce: nat, ctr: nat, x: seq<Octet>, y: seq<Octet>)
    ensures Ctr(key, nonce, ctr, x + y) == Ctr(key, nonce, ctr, x) + Ctr(key, nonce, ctr + |x|, y)
  {
    KeyStreamConcat(key, nonce, ctr, |x|, |y|);
    XorAllConcat(x, KeyStreamFrom(key, nonce, ctr, |x|), y, KeyStreamFrom(key, nonce, ctr + |x|, |y|));
  }

  /** Octet i of the key stream, found in the encrypted block it belongs to. */
  lemma KeyStreamInBlock(key: Cipher, nonce: nat, ctr: nat, block: Block, i: nat)
    requires ctr % 16 + i < 16 && block == key(Be64(nonce) + Be64(ctr / 16))
    ensures KeyStream(key, nonce, ctr + i) == block[ctr % 16 + i]
  {
    assert (ctr + i) / 16 == ctr / 16 && (ctr + i) % 16 == ctr % 16 + i;
  }

  lemma CtrAt(key: Cipher, nonce: nat, ctr: nat, x: seq<Octet>, i: nat)
    requires i < |x|
    ensures Ctr(key, nonce, ctr, x)[i] == Xor8(x[i], KeyStream(key, nonce, ctr + i))
  {
  }

  /**
   The same by numbers: the octet is encrypted with the block whose first half is the nonce and whose
   second half is the block number, both most significant octet first.
   */
  lemma CtrByNumbers(key: Cipher, nonce: nat, ctr: nat, x: seq<Octet>, i: nat, b: Block)
    requires i < |x| && FromBigEndian(b[..8]) == nonce && FromBigEndian(b[8..]) == (ctr + i) / 16
    ensures Ctr(key, nonce, ctr, x)[i] == Xor8(x[i], key(b)[(ctr + i) % 16])
  {
    CtrAt(key, nonce, ctr, x, i);
    BigEndianWrites(b[..8], 8);
    BigEndianWrites(b[8..], 8);
    assert b == b[..8] + b[8..];
  }

  /** No two blocks of a stream are encrypted with the same counter block. */
  lemma CounterBlocksDiffer(nonce: nat, i: nat, j: nat)
    requires i <= UINT64_MAX && j <= UINT64_MAX && i / 16 != j / 16
    ensures Be64(nonce) + Be64(i / 16) != Be64(nonce) + Be64(j / 16)
  {
    var a, b := Be64(nonce) + Be64(i / 16), Be64(nonce) + Be64(j / 16);
    assert a[8..] == Be64(i / 16) && b[8..] == Be64(j / 16);
    if a == b {
      Be64Injective(i / 16, j / 16);
    }
  }

  /** One encrypted block holds the key stream of the octets n, n + 1, ... of a message. */
  lemma BlockServes(key: Cipher, nonce: nat, ctr: nat, x: seq<Octet>, n: nat, block: Block, k: seq<Octet>)
    requires n + |k| <= |x| && (ctr + n) % 16 + |k| <= 16
    requires block == key(Be64(nonce) + Be64((ctr + n) / 16))
    requires k == block[(ctr + n) % 16..(ctr + n) % 16 + |k|]
    ensures forall i :: 0 <= i < |k| ==> Xor8(x[n + i], k[i]) == Ctr(key, nonce, ctr, x)[n + i]
  {
    forall i | 0 <= i < |k|
      ensures Xor8(x[n + i], k[i]) == Ctr(key, nonce, ctr, x)[n + i]
    {
      CtrAt(key, nonce, ctr, x, n + i);
      KeyStreamInBlock(key, nonce, ctr + n, block, i);
      assert ctr + (n + i) == ctr + n + i;
    }
  }

  /** The arguments of a call: len octets at inbuf[ipos..], to be written to outbuf[opos..]. */
  datatype Request = Request(inbuf: array<Octet>, ipos: nat, outbuf: array<Octet>, opos: nat, len: nat) {
    /** Both regions are in bounds, and they are identical or disjoint. */
    ghost predicate Compatible() {
      && ipos + len <= inbuf.Length && opos + len <= outbuf.Length
      && (inbuf == outbuf ==> ipos == opos || ipos + len <= opos || opos + len <= ipos)
    }

    ghost function Input(): (x: seq<Octet>)
      requires Compatible()
      reads inbuf
      ensures |x| == len
    {
      inbuf[ipos..ipos + len]
    }
  }

  /** A call as seen from before it: the input x, the output buffer, the stream position,
      and the octets y that are to be written. */
  datatype Before = Before(x: seq<Octet>, y: seq<Octet>, out: seq<Octet>, ctr: nat)

  /** The first n octets of the request are in the output, and the rest of both
      buffers is as it was. */
  ghost predicate Written(req: Request, was: Before, n: nat)
    reads req.inbuf, req.outbuf
  {
    && req.Compatible() && |was.x| == |was.y| == req.len && |was.out| == req.outbuf.Length && n <= req.len
    && (forall j :: 0 <= j < n ==> req.outbuf[req.opos + j] == was.y[j])
    && (forall j :: 0 <= j < |was.out| && !(req.opos <= j < req.opos + n) ==> req.outbuf[j] == was.out[j])
    && (forall j :: n <= j < req.len ==> req.inbuf[req.ipos + j] == was.x[j])
  }

  /** Write the next octets of input, exclusive-or the key stream k, to the output. */
  method XorInto(req: Request, n: nat, k: seq<Octet>, ghost was: Before)
    requires Written(req, was, n) && n + |k| <= req.len
    requires forall i :: 0 <= i < |k| ==> Xor8(was.x[n + i], k[i]) == was.y[n + i]
    modifies req.outbuf
    ensures Written(req, was, n + |k|)
  {
    for i := 0 to |k|
      invariant Written(req, was, n + i)
    {
      var c := Xor8(req.inbuf[req.ipos + n + i], k[i]);
      assert c == was.y[n + i];
      req.outbuf[req.opos + n + i] := c;
    }
  }

  lemma WrittenAll(req: Request, was: Before)
    requires Written(req, was, req.len)
    ensures req.outbuf[..] == Patch(was.out, req.opos, was.y)
  {
  }

  /** Incrementing the last octet, where it does not wrap, encodes the next number. */
  lemma CounterUp(p: Block, q: Block, k: nat)
    requires q == p[15 := (p[15] as nat + 1) % 256] && q[15] != 0 && k > 0 && p[8..] == Be64(k - 1)
    ensures q[..8] == p[..8] && q[8..] == Be64(k)
  {
    assert p[8..][7] == p[15];
    Be64Last(k - 1);
    Be64Next(k - 1);
    assert q[8..] == p[8..][7 := p[15] + 1];
  }

  class Stream {
    var key: Cipher
    var bytectr: nat
    var buf: Block
    var pblk: Block
    ghost var nonce: nat

    /** The last two octet groups of pblk: the last block number that was encrypted,
        or an octet that wraps before the first block. */
    ghost predicate CounterValid(blocks: nat)
      reads this
    {
      && pblk[..8] == Be64(nonce)
      && (blocks == 0 ==> pblk[15] == 0xff)
      && (blocks > 0 ==> pblk[8..] == Be64(blocks - 1))
    }

    /** The counter block in use is complete, and buf is its encryption. */
    ghost predicate BlockValid(block: nat)
      reads this
    {
      pblk == Be64(nonce) + Be64(block) && buf == key(pblk)
    }

    ghost predicate Valid()
      reads this
    {
      && bytectr <= UINT64_MAX
      && (bytectr % 16 == 0 ==> CounterValid(bytectr / 16))
      && (bytectr % 16 != 0 ==> BlockValid(bytectr / 16))
    }

    /** crypto_aesctr_init2(stream, key, nonce) on a new stream: pblk[8..14] stays uninitialized. */
    constructor (key: Cipher, nonce: nat, garbage: Block)
      ensures Valid() && bytectr == 0 && this.key == key && this.nonce == nonce
    {
      this.key, this.nonce, bytectr, buf := key, nonce, 0, garbage;
      pblk := (Be64(nonce) + garbage[8..])[15 := 0xff];
    }

    /** crypto_aesctr_init2(stream, key, nonce); no key keeps the previous one. */
    method Init2(newKey: Key, nonce: nat)
      modifies this
      ensures Valid() && bytectr == 0 && this.nonce == nonce
      ensures key == if newKey.NoKey? then old(key) else newKey.cipher
    {
      if newKey.SomeKey? {
        key := newKey.cipher;
      }
      this.nonce := nonce;
      pblk := Be64(nonce) + pblk[8..];
      bytectr := 0;
      pblk := pblk[15 := 0xff];
    }

    /** crypto_aesctr_stream_cipherblock_generate(stream) */
    method Generate()
      requires Valid() && bytectr % 16 == 0
      modifies this`pblk, this`buf
      ensures BlockValid(bytectr / 16)
    {
      ghost var k := bytectr / 16;
      ghost var p0 := pblk;
      var last: nat := pblk[15];
      pblk := pblk[15 := (last + 1) % 256];
      if pblk[15] == 0 {
        pblk := pblk[..8] + Be64(bytectr / 16);
      } else {
        CounterUp(p0, pblk, k);
      }
      assert pblk == pblk[..8] + pblk[8..];
      buf := key(pblk);
    }

    /** The first n octets of the request are written and counted. */
    ghost predicate Progress(req: Request, was: Before, n: nat)
      reads this, req.inbuf, req.outbuf
    {
      && Written(req, was, n) && was.y == Ctr(key, nonce, was.ctr, was.x)
      && bytectr == was.ctr + n && was.ctr + req.len <= UINT64_MAX
    }

    /** crypto_aesctr_stream_cipherblock_use(stream, inbuf, outbuf, buflen, nbytes, bytemod) */
    method Use(req: Request, n: nat, nbytes: nat, bytemod: nat, ghost was: Before)
      requires Progress(req, was, n) && n + nbytes <= req.len
      requires bytemod == bytectr % 16 && bytemod + nbytes <= 16 && (bytemod == 0 ==> nbytes > 0)
      requires BlockValid(bytectr / 16)
      modifies this`bytectr, req.outbuf
      ensures Valid() && Progress(req, was, n + nbytes)
    {
      BlockServes(key, nonce, was.ctr, was.x, n, buf, buf[bytemod..bytemod + nbytes]);
      XorInto(req, n, buf[bytemod..bytemod + nbytes], was);
      BlockEnd(bytectr, nbytes);
      bytectr := bytectr + nbytes;
    }

    /** Where a block's octets end, the next block begins. */
    lemma BlockEnd(ctr: nat, n: nat)
      requires BlockValid(ctr / 16) && ctr % 16 + n <= 16
      ensures (ctr + n) % 16 != 0 ==> BlockValid((ctr + n) / 16)
      ensures (ctr + n) % 16 == 0 && n > 0 ==> CounterValid((ctr + n) / 16)
    {
      if (ctr + n) % 16 == 0 && n > 0 {
        assert (ctr + n) / 16 == ctr / 16 + 1;
        assert pblk[..8] == Be64(nonce) && pblk[8..] == Be64(ctr / 16);
      } else {
        assert ctr % 16 + n < 16 || n == 0;
      }
    }

    /** crypto_aesctr_stream_pre_wholeblock: use up the block that was begun. */
    method PreWholeblock(req: Request, ghost was: Before) returns (n: nat)
      requires Valid() && Progress(req, was, 0)
      modifies this`bytectr, req.outbuf
      ensures Valid() && Progress(req, was, n)
      ensures n == req.len || bytectr % 16 == 0
    {
      var bytemod := bytectr % 16;
      n := 0;
      if bytemod != 0 {
        if req.len <= 16 - bytemod {
          n := req.len;
        } else {
          n := 16 - bytemod;
        }
        Use(req, 0, n, bytemod, was);
      }
    }

    /** crypto_aesctr_stream_post_wholeblock: the final octets need a new block. */
    method PostWholeblock(req: Request, n: nat, ghost was: Before)
      requires Valid() && Progress(req, was, n) && req.len - n < 16
      requires n == req.len || bytectr % 16 == 0
      modifies this`bytectr, this`buf, this`pblk, req.outbuf
      ensures Valid() && Progress(req, was, req.len)
    {
      if req.len - n > 0 {
        Generate();
        Use(req, n, req.len - n, 0, was);
      }
    }

    /** The loop of crypto_aesctr_stream: whole blocks, one at a time. */
    method SoftwareBlocks(req: Request, n0: nat, ghost was: Before) returns (n: nat)
      requires Valid() && Progress(req, was, n0) && (n0 == req.len || bytectr % 16 == 0)
      modifies this`bytectr, this`buf, this`pblk, req.outbuf
      ensures Valid() && Progress(req, was, n) && req.len - n < 16
      ensures n == req.len || bytectr % 16 == 0
    {
      n := n0;
      while req.len - n >= 16
        invariant Valid() && Progress(req, was, n)
        invariant n == req.len || bytectr % 16 == 0
      {
        SoftwareBlock(req, n, was);
        n := n + 16;
      }
    }

    /** Generate a block of the cipherstream and use all of it. */
    method SoftwareBlock(req: Request, n: nat, ghost was: Before)
      requires Valid() && Progress(req, was, n) && req.len - n >= 16 && bytectr % 16 == 0
      modifies this`bytectr, this`buf, this`pblk, req.outbuf
      ensures Valid() && Progress(req, was, n + 16) && bytectr % 16 == 0
    {
      Generate();
      Use(req, n, 16, 0, was);
    }

    /** crypto_aesctr_stream(stream, inbuf, outbuf, buflen), without acceleration. */
    method StreamSoftware(req: Request)
      requires Valid() && req.Compatible() && req.len < UINT64_MAX - bytectr
      modifies this`bytectr, this`buf, this`pblk, req.outbuf
      ensures Valid() && bytectr == old(bytectr) + req.len
      ensures req.outbuf[..] == old(Patch(req.outbuf[..], req.opos, Ctr(key, nonce, bytectr, req.Input())))
    {
      ghost var was := Before(req.Input(), Ctr(key, nonce, bytectr, req.Input()), req.outbuf[..], bytectr);
      NoProgress(req, was);
      var n := PreWholeblock(req, was);
      n := SoftwareBlocks(req, n, was);
      PostWholeblock(req, n, was);
      WrittenAll(req, was);
    }

    lemma NoProgress(req: Request, was: Before)
      requires req.Compatible() && bytectr + req.len <= UINT64_MAX
      requires was == Before(req.Input(), Ctr(key, nonce, bytectr, req.Input()), req.outbuf[..], bytectr)
      ensures Progress(req, was, 0)
    {
    }

    /** The body of the loop of crypto_aesctr_aesni_stream_wholeblocks, for one block number. */
    method OneBlock(req: Request, n: nat, nonceBe: seq<Octet>, counter: nat, ghost was: Before) returns (counterBe: seq<Octet>)
      requires Written(req, was, n) && was.y == Ctr(key, nonce, was.ctr, was.x)
      requires was.ctr + n == 16 * counter && n + 16 <= req.len && nonceBe == Be64(nonce)
      modifies req.outbuf
      ensures Written(req, was, n + 16) && counterBe == Be64(counter)
    {
      counterBe := Be64(counter);
      var block := key(nonceBe + counterBe);
      assert block[0..16] == block;
      BlockServes(key, nonce, was.ctr, was.x, n, block, block);
      XorInto(req, n, block, was);
    }

    /** crypto_aesctr_aesni_stream_wholeblocks(stream, inbuf, outbuf, buflen) */
    method WholeBlocks(req: Request, n0: nat, ghost was: Before) returns (n: nat)
      requires Valid() && Progress(req, was, n0) && bytectr % 16 == 0 && req.len - n0 >= 16
      modifies this`bytectr, this`pblk, req.outbuf
      ensures Valid() && Progress(req, was, n) && req.len - n < 16 && bytectr % 16 == 0
    {
      var first := bytectr / 16;
      var numBlocks := (req.len - n0) / 16;
      var counterBe := BlockLoop(req, n0, first, numBlocks, was);
      n := n0 + 16 * numBlocks;
      pblk := pblk[..8] + counterBe;
      bytectr := bytectr + 16 * numBlocks;
      AfterBlocks(first, numBlocks, counterBe);
    }

    /** The loop over numBlocks > 0 whole blocks; returns the encoding of the last block number. */
    method BlockLoop(req: Request, n0: nat, first: nat, numBlocks: nat, ghost was: Before) returns (counterBe: seq<Octet>)
      requires Progress(req, was, n0) && bytectr == 16 * first && pblk[..8] == Be64(nonce)
      requires numBlocks > 0 && n0 + 16 * numBlocks <= req.len
      modifies req.outbuf
      ensures Written(req, was, n0 + 16 * numBlocks) && counterBe == Be64(first + numBlocks - 1)
    {
      var nonceBe := pblk[..8];
      counterBe := OneBlock(req, n0, nonceBe, first, was);
      var k := 1;
      while k < numBlocks
        invariant 1 <= k <= numBlocks
        invariant counterBe == Be64(first + k - 1)
        invariant Written(req, was, n0 + 16 * k)
      {
        counterBe := OneBlock(req, n0 + 16 * k, nonceBe, first + k, was);
        k := k + 1;
      }
    }

    lemma AfterBlocks(first: nat, numBlocks: nat, counterBe: seq<Octet>)
      requires numBlocks > 0 && bytectr == 16 * first + 16 * numBlocks
      requires pblk[..8] == Be64(nonce) && pblk[8..] == Be64(first + numBlocks - 1)
      ensures bytectr % 16 == 0 && CounterValid(bytectr / 16)
    {
      assert bytectr / 16 == first + numBlocks;
    }

    /** crypto_aesctr_aesni_stream(stream, inbuf, outbuf, buflen) */
    method StreamAesni(req: Request)
      requires Valid() && req.Compatible() && req.len < UINT64_MAX - bytectr
      modifies this`bytectr, this`buf, this`pblk, req.outbuf
      ensures Valid() && bytectr == old(bytectr) + req.len
      ensures req.outbuf[..] == old(Patch(req.outbuf[..], req.opos, Ctr(key, nonce, bytectr, req.Input())))
    {
      ghost var was := Before(req.Input(), Ctr(key, nonce, bytectr, req.Input()), req.outbuf[..], bytectr);
      NoProgress(req, was);
      var n := PreWholeblock(req, was);
      if req.len - n >= 16 {
        n := WholeBlocks(req, n, was);
      }
      PostWholeblock(req, n, was);
      WrittenAll(req, was);
    }

    /** crypto_aesctr_stream(stream, inbuf, outbuf, buflen) */
    method Encrypt(req: Request, aesni: bool)
      requires Valid() && req.Compatible() && req.len < UINT64_MAX - bytectr
      modifies this`bytectr, this`buf, this`pblk, req.outbuf
      ensures Valid() && bytectr == old(bytectr) + req.len
      ensures req.outbuf[..] == old(Patch(req.outbuf[..], req.opos, Ctr(key, nonce, bytectr, req.Input())))
    {
      if req.len >= 16 && aesni {
        StreamAesni(req);
      } else {
        StreamSoftware(req);
      }
    }
  }

  /** crypto_aesctr_buf(key, nonce, inbuf, outbuf, buflen) */
  method EncryptBuf(key: Cipher, nonce: nat, req: Request, aesni: bool, garbage: Block)
    requires req.Compatible() && req.len < UINT64_MAX
    modifies req.outbuf
    ensures req.outbuf[..] == old(Patch(req.outbuf[..], req.opos, Ctr(key, nonce, 0, req.Input())))
  {
    var stream := new Stream(key, nonce, garbage);
    stream.Encrypt(req, aesni);
  }

  datatype Key = NoKey | SomeKey(cipher: Cipher)
}
