/** PBKDF2 with cloned HMAC contexts (alg/sha256.c). */
module Pbkdf2 {
  import opened Octets
  import opened Sha256
  import opened Hmac

  // ------------------------------------------------ section 5.2 of RFC 8018

  type Digest = d: seq<Octet> | |d| == 32 witness seq<Octet>(32, _ => 0)

  /** The pseudorandom function under a password, a salt and an iteration count. */
  datatype Kdf = Kdf(prf: seq<Octet> -> Digest, salt: seq<Octet>, c: nat)

  /** U_j of a block that starts from S || INT(i) = x. */
  function U(prf: seq<Octet> -> Digest, x: seq<Octet>, j: nat): Digest
    requires j >= 1
  {
    if j == 1 then prf(x) else prf(U(prf, x, j - 1))
  }

  function XorDigest(a: Digest, b: Digest): Digest {
    seq<Octet>(32, i requires 0 <= i < 32 => Xor8(a[i], b[i]))
  }

  /** U_1 xor ... xor U_j */
  function T(prf: seq<Octet> -> Digest, x: seq<Octet>, j: nat): Digest
    requires j >= 1
  {
    if j == 1 then U(prf, x, 1) else XorDigest(T(prf, x, j - 1), U(prf, x, j))
  }

  /** T_i; the code takes an iteration count of zero as one. */
  function Block(k: Kdf, i: nat): Digest {
    T(k.prf, k.salt + BigEndian(i, 4), if k.c == 0 then 1 else k.c)
  }

  /** T_1 || ... || T_n */
  function DerivedKey(k: Kdf, n: nat): (d: seq<Octet>)
    ensures |d| == 32 * n
  {
    if n == 0 then [] else DerivedKey(k, n - 1) + Block(k, n)
  }

  // ---------------------------------------------------------------- the code

  /** HMAC-SHA256 under a password. */
  function Prf(p: Params, passwd: seq<Octet>): seq<Octet> -> Digest {
    x => HmacOf(p, passwd, x)
  }

  /** for (k = 0; k < 32; k++) T[k] ^= U[k] */
  method XorInto(t: Digest, u: Digest) returns (r: Digest)
    ensures r == XorDigest(t, u)
  {
    r := t;
    for k := 0 to 32
      invariant forall x :: 0 <= x < 32 ==> r[x] == if x < k then Xor8(t[x], u[x]) else t[x]
    {
      r := r[k := Xor8(r[k], u[k])];
    }
  }

  /** A context that has been fed text, and computes the pseudorandom function. */
  ghost predicate Primed(ctx: Context256, prf: seq<Octet> -> Digest, text: seq<Octet>)
    reads ctx, ctx.ictx, ctx.octx
  {
    ctx.Valid() && ctx.text == text && Computes(ctx.p, ctx.key, prf)
  }

  ghost predicate Computes(p: Params, passwd: seq<Octet>, prf: seq<Octet> -> Digest) {
    forall x {:trigger HmacOf(p, passwd, x)} :: prf(x) == HmacOf(p, passwd, x)
  }

  /** HMAC of more text after what a context has been fed already, which stays as it is. */
  method Continue(ctx: Context256, x: seq<Octet>, ghost prf: seq<Octet> -> Digest, ghost text: seq<Octet>)
    returns (digest: Digest)
    requires Primed(ctx, prf, text)
    ensures digest == prf(text + x)
  {
    var hctx := new Context256.Clone(ctx);
    hctx.Update(x);
    digest := hctx.Final();
  }

  /** One iteration: the next U, mixed into the block. */
  method Iterate(Phctx: Context256, ghost prf: seq<Octet> -> Digest, ghost x: seq<Octet>, ghost j: nat, u: Digest, t: Digest)
    returns (u': Digest, t': Digest)
    requires Primed(Phctx, prf, []) && j >= 1 && u == U(prf, x, j) && t == T(prf, x, j)
    ensures u' == U(prf, x, j + 1) && t' == T(prf, x, j + 1)
  {
    u' := Continue(Phctx, u, prf, []);
    assert [] + u == u;
    t' := XorInto(t, u');
  }

  /** All iterations, after the first U. */
  method Iterations(Phctx: Context256, c: nat, ghost prf: seq<Octet> -> Digest, ghost x: seq<Octet>, first: Digest)
    returns (t: Digest)
    requires Primed(Phctx, prf, []) && first == prf(x)
    ensures t == T(prf, x, if c == 0 then 1 else c)
  {
    var u, j := first, 2;
    t := u;
    while j <= c
      invariant j >= 2 && (j <= c + 1 || j == 2) && u == U(prf, x, j - 1) && t == T(prf, x, j - 1)
      invariant Primed(Phctx, prf, [])
      decreases c - j
    {
      u, t := Iterate(Phctx, prf, x, j - 1, u, t);
      j := j + 1;
    }
  }

  /** The block T_i. */
  method OneBlock(ghost k: Kdf, c: nat, Phctx: Context256, PShctx: Context256, i: nat) returns (t: Digest)
    requires Primed(Phctx, k.prf, []) && Primed(PShctx, k.prf, k.salt) && c == k.c
    ensures t == Block(k, i)
  {
    var ivec := BigEndian(i, 4);
    var u := Continue(PShctx, ivec, k.prf, k.salt);
    t := Iterations(Phctx, c, k.prf, k.salt + ivec, u);
  }

  /** memcpy(&buf[pos], t, clen) */
  method CopyOut(buf: array<Octet>, pos: nat, t: seq<Octet>, clen: nat)
    requires pos + clen <= buf.Length && clen <= |t|
    modifies buf
    ensures buf[..pos + clen] == old(buf[..pos]) + t[..clen]
  {
    forall x | 0 <= x < clen {
      buf[pos + x] := t[x];
    }
  }

  /** The output after i blocks. */
  ghost predicate Derived(k: Kdf, i: nat, out: seq<Octet>) {
    if 32 * i <= |out| then out[..32 * i] == DerivedKey(k, i)
    else |out| > 32 * i - 32 && out == DerivedKey(k, i)[..|out|]
  }

  /** Copy as much as necessary of the next block. */
  method Emit(ghost k: Kdf, buf: array<Octet>, i: nat, t: Digest)
    requires 32 * i < buf.Length && Derived(k, i, buf[..]) && t == Block(k, i + 1)
    modifies buf
    ensures Derived(k, i + 1, buf[..])
  {
    var clen := buf.Length - i * 32;
    if clen > 32 {
      clen := 32;
    }
    ghost var before := buf[..];
    assert buf[..32 * i] == before[..32 * i];
    CopyOut(buf, i * 32, t, clen);
    Grown(k, i, t, clen, buf[..]);
  }

  lemma Grown(k: Kdf, i: nat, t: Digest, clen: nat, out: seq<Octet>)
    requires t == Block(k, i + 1) && 32 * i + clen <= |out| && clen <= 32
    requires clen == 32 || (0 < clen && 32 * i + clen == |out|)
    requires out[..32 * i + clen] == DerivedKey(k, i) + t[..clen]
    ensures Derived(k, i + 1, out)
  {
    var d := DerivedKey(k, i);
    assert DerivedKey(k, i + 1) == d + t;
    assert (d + t)[..32 * i + clen] == d + t[..clen];
    assert clen == 32 ==> t[..clen] == t;
    assert out[..|out|] == out;
  }

  method Prime(p: Params, passwd: seq<Octet>, salt: seq<Octet>)
    returns (Phctx: Context256, PShctx: Context256)
    ensures Primed(Phctx, Prf(p, passwd), []) && Primed(PShctx, Prf(p, passwd), salt)
    ensures fresh(Phctx) && fresh(Phctx.ictx) && fresh(Phctx.octx)
    ensures fresh(PShctx) && fresh(PShctx.ictx) && fresh(PShctx.octx)
  {
    Phctx := new Context256(p, passwd);
    PShctx := new Context256.Clone(Phctx);
    PShctx.Update(salt);
    assert [] + salt == salt;
  }

  /** The blocks in order. */
  method AllBlocks(ghost k: Kdf, c: nat, Phctx: Context256, PShctx: Context256, buf: array<Octet>) returns (i: nat)
    requires Primed(Phctx, k.prf, []) && Primed(PShctx, k.prf, k.salt) && c == k.c
    modifies buf
    ensures 32 * i >= buf.Length > 32 * i - 32 && Derived(k, i, buf[..])
  {
    i := 0;
    assert buf[..][..0] == DerivedKey(k, 0);
    while i * 32 < buf.Length
      invariant buf.Length > 32 * i - 32 && Derived(k, i, buf[..])
      invariant Primed(Phctx, k.prf, []) && Primed(PShctx, k.prf, k.salt)
    {
      var t := OneBlock(k, c, Phctx, PShctx, i + 1);
      Emit(k, buf, i, t);
      i := i + 1;
    }
  }

  /** PBKDF2_SHA256(passwd, passwdlen, salt, saltlen, c, buf, dkLen) */
  method Derive(p: Params, passwd: seq<Octet>, salt: seq<Octet>, c: nat, buf: array<Octet>)
    requires buf.Length <= 32 * 0xffff_ffff
    modifies buf
    ensures buf[..] == DerivedKey(Kdf(Prf(p, passwd), salt, c), (buf.Length + 31) / 32)[..buf.Length]
  {
    var Phctx, PShctx := Prime(p, passwd, salt);
    var n := AllBlocks(Kdf(Prf(p, passwd), salt, c), c, Phctx, PShctx, buf);
    assert n == (buf.Length + 31) / 32;
  }
}
