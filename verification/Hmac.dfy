/** HMAC-SHA256 (alg/sha256.c). */
module Hmac {
  import opened Octets
  import opened Sha256

  // -------------------------------------------------- section 2 of RFC 2104

  /** The key itself, or its hash if it is longer than a block. */
  function ShortKey(p: Params, key: seq<Octet>): (k: seq<Octet>)
    ensures |k| <= 64
  {
    if |key| > 64 then Hash256(p, key) else key
  }

  /** The key extended with zeros to a block, exclusive-or the repeated octet pad. */
  function KeyXorPad(p: Params, key: seq<Octet>, pad: Octet): (b: seq<Octet>)
    ensures |b| == 64
  {
    var k := ShortKey(p, key);
    seq<Octet>(64, i requires 0 <= i < 64 => Xor8(if i < |k| then k[i] else 0, pad))
  }

  function HmacOf(p: Params, key: seq<Octet>, text: seq<Octet>): (d: seq<Octet>)
    ensures |d| == 32
  {
    Hash256(p, KeyXorPad(p, key, 0x5c) + Hash256(p, KeyXorPad(p, key, 0x36) + text))
  }

  /** memset(pad, c, 64), then pad[i] ^= K[i]. */
  method MaskKey(p: Params, K: seq<Octet>, c: Octet, ghost key: seq<Octet>) returns (pad: seq<Octet>)
    requires K == ShortKey(p, key)
    ensures pad == KeyXorPad(p, key, c)
  {
    pad := seq<Octet>(64, _ => c);
    var i := 0;
    while i < |K|
      invariant i <= |K| && |pad| == 64
      invariant forall j :: 0 <= j < 64 ==> pad[j] == if j < i then Xor8(K[j], c) else c
    {
      XorCommutes(K[i], c);
      pad, i := pad[i := Xor8(pad[i], K[i])], i + 1;
    }
    XorZero(c);
  }

  class Context256 {
    const ictx: Context
    const octx: Context
    ghost const p: Params
    ghost const key: seq<Octet>
    ghost var text: seq<Octet>  // everything fed since initialization

    ghost predicate Valid()
      reads this, ictx, octx
    {
      ictx != octx && ictx.Valid() && octx.Valid() && ictx.p == p && octx.p == p
      && ictx.Msg() == KeyXorPad(p, key, 0x36) + text && octx.Msg() == KeyXorPad(p, key, 0x5c)
    }

    /** HMAC_SHA256_Init_internal(ctx, K, Klen, tmp32, pad, khash) */
    constructor (p: Params, key: seq<Octet>)
      ensures Valid() && fresh(ictx) && fresh(octx) && this.p == p && this.key == key && text == []
    {
      var K := key;
      if |key| > 64 {
        K := HashBuf(p, key);
      }
      var inner := new Context(p);
      var pad := MaskKey(p, K, 0x36, key);
      inner.Update(pad);
      var outer := new Context(p);
      pad := MaskKey(p, K, 0x5c, key);
      outer.Update(pad);
      this.p, this.key, text, ictx, octx := p, key, [], inner, outer;
    }

    /** memcpy of a context. */
    constructor Clone(c: Context256)
      requires c.Valid()
      ensures Valid() && fresh(ictx) && fresh(octx) && p == c.p && key == c.key && text == c.text
    {
      var inner := new Context.Clone(c.ictx);
      var outer := new Context.Clone(c.octx);
      p, key, text, ictx, octx := c.p, c.key, c.text, inner, outer;
    }

    /** HMAC_SHA256_Update_internal(ctx, in, len, tmp32) */
    method Update(x: seq<Octet>)
      requires Valid()
      modifies this`text, ictx
      ensures Valid() && text == old(text) + x
    {
      ictx.Update(x);
      text := text + x;
    }

    /** HMAC_SHA256_Final_internal(digest, ctx, tmp32, ihash) */
    method Final() returns (digest: seq<Octet>)
      requires Valid()
      modifies ictx, octx
      ensures digest == HmacOf(p, key, text)
    {
      var ihash := ictx.Final();
      octx.Update(ihash);
      digest := octx.Final();
    }
  }

  /** HMAC_SHA256_Buf(K, Klen, in, len, digest) */
  method HmacBuf(p: Params, K: seq<Octet>, x: seq<Octet>) returns (digest: seq<Octet>)
    ensures digest == HmacOf(p, K, x)
  {
    var ctx := new Context256(p, K);
    ctx.Update(x);
    assert [] + x == x;
    digest := ctx.Final();
  }
}
