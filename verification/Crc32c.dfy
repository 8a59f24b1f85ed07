/**
 CRC32C contexts (alg/crc32c.c) and the accelerated walk over a buffer
 (alg/crc32c_sse42.c).
 */
module Crc32c {
  import opened Gf2
  import opened Words
  import opened CrcTables

  function ByteOf(v: nat): Byte {
    [v % 2 == 1, v / 2 % 2 == 1, v / 4 % 2 == 1, v / 8 % 2 == 1,
     v / 16 % 2 == 1, v / 32 % 2 == 1, v / 64 % 2 == 1, v / 128 % 2 == 1]
  }

  lemma BitOfByte(v: nat, i: nat, p: nat)
    requires v < 256 && i < 8 && p == Pow2(i)
    ensures ByteOf(v)[i] <==> v / p % 2 == 1
  {
    PowersOfTwo();
    assert i == 0 || i == 1 || i == 2 || i == 3 || i == 4 || i == 5 || i == 6 || i == 7;
  }

  /** A number is written as a byte by its low eight bits. */
  lemma ByteOfBits(v: nat, n: nat)
    requires n == 8 && v < 256 && Pow2(n) == 256
    ensures ByteOf(v) == NatBits(v, n)
  {
    forall i | 0 <= i < n
      ensures ByteOf(v)[i] == NatBits(v, n)[i]
    {
      BitOfByte(v, i, Pow2(i));
      BitOfNumber(v, n, i);
    }
  }

  /** The byte that a number is written as has the number's value. */
  lemma ByteOfValue(v: nat)
    requires v < 256
    ensures Value(ByteOf(v)) == v
  {
    var n := |ByteOf(v)|;
    assert Pow2(n) == 256 by {
      PowersOfTwo();
    }
    ByteOfBits(v, n);
    SmallNumber(v, n, 256);
  }

  /** A 32-bit constant, given by its bytes from the most significant down. */
  function Hex(b3: nat, b2: nat, b1: nat, b0: nat): Word {
    ByteOf(b0) + ByteOf(b1) + ByteOf(b2) + ByteOf(b3)
  }

  /** The weights of the four bytes of a constant. */
  lemma HexValue(b3: nat, b2: nat, b1: nat, b0: nat)
    requires b3 < 256 && b2 < 256 && b1 < 256 && b0 < 256
    ensures Value(Hex(b3, b2, b1, b0)) == 0x1000000 * b3 + 0x10000 * b2 + 0x100 * b1 + b0
  {
    var c0, c1, c2, c3 := ByteOf(b0), ByteOf(b1), ByteOf(b2), ByteOf(b3);
    ByteOfValue(b0);
    ByteOfValue(b1);
    ByteOfValue(b2);
    ByteOfValue(b3);
    FourBytesValue(c0, c1, c2, c3);
  }

  /** The low coefficients of the Castagnoli polynomial 0x11EDC6F41 (section 12.1 of RFC 3720). */
  function CastagnoliWord(): Word {
    Hex(0x1E, 0xDC, 0x6F, 0x41)
  }

  /** The constant T_0_0x80 == 0x82f63b78. */
  function LeadingOne(): Word {
    Hex(0x82, 0xf6, 0x3b, 0x78)
  }

  /** The constants are the numbers that the code and the standard write down. */
  lemma ConstantValues()
    ensures Value(CastagnoliWord()) == 0x1EDC6F41 && Value(LeadingOne()) == 0x82f63b78
  {
    HexValue(0x1E, 0xDC, 0x6F, 0x41);
    HexValue(0x82, 0xf6, 0x3b, 0x78);
  }

  /** A polynomial as the number with its coefficients as binary digits, the leading one first. */
  function Coefficients(p: Poly): nat {
    if p == [] then 0 else 2 * Coefficients(p[..|p| - 1]) + if p[|p| - 1] then 1 else 0
  }

  /** A word and the polynomial with its bits as coefficients are the same number. */
  lemma {:induction false} CoefficientsValue(p: Poly, w: seq<bool>)
    requires |p| == |w| && forall i :: 0 <= i < |p| ==> p[i] == w[|w| - 1 - i]
    ensures Coefficients(p) == Value(w)
    decreases |p|
  {
    if p != [] {
      CoefficientsValue(p[..|p| - 1], w[1..]);
    }
  }

  /** Coefficients tell polynomials of the same length apart. */
  lemma {:induction false} CoefficientsInjective(p: Poly, q: Poly)
    requires |p| == |q| && Coefficients(p) == Coefficients(q)
    ensures p == q
    decreases |p|
  {
    if p != [] {
      var n := |p| - 1;
      CoefficientsInjective(p[..n], q[..n]);
      assert p == p[..n] + [p[n]] && q == q[..n] + [q[n]];
    }
  }

  lemma {:induction false} LeadingCoefficient(t: Poly, n: nat)
    requires |t| == n
    ensures Coefficients([true] + t) == Pow2(n) + Coefficients(t)
    decreases n
  {
    if n == 0 {
      assert [true] + t == [true] && [true][..0] == [];
    } else {
      LeadingCoefficient(t[..n - 1], n - 1);
      assert ([true] + t)[..n] == [true] + t[..n - 1];
    }
  }

  /** The Castagnoli polynomial, by its number. */
  ghost predicate IsCastagnoli(p: Poly) {
    |p| == 33 && Coefficients(p) == 0x11EDC6F41
  }

  /** A register with the low coefficients of the Castagnoli polynomial stands for that polynomial alone. */
  lemma OnlyCastagnoli(w: Word, p: Poly)
    requires Value(w) == 0x1EDC6F41
    ensures IsCastagnoli(p) <==> p == Monic(Reversed(w))
  {
    MonicNumber(w, 0x1EDC6F41);
    if IsCastagnoli(p) {
      CoefficientsInjective(p, Monic(Reversed(w)));
    }
  }

  lemma MonicNumber(w: Word, v: nat)
    requires Value(w) == v
    ensures Coefficients(Monic(Reversed(w))) == 0x1_0000_0000 + v
  {
    var t, n := Reversed(w), |w|;
    CoefficientsValue(t, w);
    LeadingCoefficient(t, n);
    Pow2Of32(n);
  }

  function ReversedByte(b: Byte): Byte {
    [b[7], b[6], b[5], b[4], b[3], b[2], b[1], b[0]]
  }

  lemma ReversedBytes(a: Byte, b: Byte, c: Byte, d: Byte)
    ensures Reversed(a + b + c + d) == ReversedByte(d) + ReversedByte(c) + ReversedByte(b) + ReversedByte(a)
  {
  }

  lemma MirrorBytes()
    ensures ByteOf(0x82) == ReversedByte(ByteOf(0x41)) && ByteOf(0xf6) == ReversedByte(ByteOf(0x6F))
    ensures ByteOf(0x3b) == ReversedByte(ByteOf(0xDC)) && ByteOf(0x78) == ReversedByte(ByteOf(0x1E))
  {
  }

  lemma MirrorWord(a: Byte, b: Byte, c: Byte, d: Byte, w: Word)
    requires w == ReversedByte(d) + ReversedByte(c) + ReversedByte(b) + ReversedByte(a)
    ensures w == Reversed(a + b + c + d)
  {
    ReversedBytes(a, b, c, d);
  }

  /** The two ways the code writes the polynomial down are mirror images. */
  lemma MirrorConstants()
    ensures LeadingOne() == Reversed(CastagnoliWord())
  {
    MirrorBytes();
    MirrorWord(ByteOf(0x41), ByteOf(0x6F), ByteOf(0xDC), ByteOf(0x1E), LeadingOne());
  }

  // ------------------------------------------------------------ the accelerated walk

  /**
   The CRC32 instruction on the bytes w, as its manual defines it: the remainder of
   the operand times x^32 plus the register times x^(8|w|), all reflected.
   */
  function Crc32Instruction(t: Residue, s: Word, w: seq<Byte>): Word {
    Rem(t, Add(BufBits(w) + Zeros(32), s + Zeros(8 * |w|)))
  }

  /** The instruction feeds its bytes one after the other. */
  lemma {:induction false} InstructionFeeds(t: Residue, s: Word, w: seq<Byte>)
    ensures Crc32Instruction(t, s, w) == FeedAll(t, s, w)
  {
    var message, register := BufBits(w) + Zeros(32), s + Zeros(8 * |w|);
    RemLinear(t, message, register);
    ShortValue(t, s);
    RemTimesPower(t, s, 8 * |w|);
    if w == [] {
      assert message == Zeros(32);
      ShortValue(t, Zeros(32));
      assert Add(Zeros(32), s) == s;
    } else {
      var n := |w| - 1;
      var b, m := w[n], BufBits(w[..n]) + Zeros(32);
      InstructionFeeds(t, s, w[..n]);
      RemLinear(t, m, s + Zeros(8 * n));
      RemTimesPower(t, s, 8 * n);
      RemByte(t, BufBits(w[..n]), b);
      TimesXPowSum(t, s, 8 * n, 8);
      ShiftedSum(t, Rem(t, m), TimesXPow(t, s, 8 * n), Widen(b));
    }
  }

  lemma ShiftedSum(t: Residue, a: Residue, c: Residue, b: Residue)
    ensures TimesXPow(t, Add(Add(a, c), b), 8) == Add(TimesXPow(t, Add(a, b), 8), TimesXPow(t, c, 8))
  {
    assert Add(Add(a, c), b) == Add(Add(a, b), c);
    TimesXPowLinear(t, Add(a, b), c, 8);
  }

  lemma FeedNext(t: Residue, s: Word, buf: seq<Byte>, i: nat, n: nat)
    requires i + n <= |buf|
    ensures FeedAll(t, s, buf[..i + n]) == FeedAll(t, FeedAll(t, s, buf[..i]), buf[i..i + n])
  {
    FeedAllConcat(t, s, buf[..i], buf[i..i + n]);
    assert buf[..i + n] == buf[..i] + buf[i..i + n];
  }

  lemma FeedNextByte(t: Residue, s: Word, buf: seq<Byte>, i: nat)
    requires i < |buf|
    ensures FeedAll(t, s, buf[..i + 1]) == Feed(t, FeedAll(t, s, buf[..i]), buf[i])
  {
    assert buf[..i + 1][..i] == buf[..i];
  }

  /** How CRC32C_Update_SSE42 splits len bytes at address addr: m aligned blocks. */
  lemma Alignment(addr: nat, len: nat, pre: nat, inBlock: nat) returns (m: nat)
    requires len >= 8 && pre == (8 - addr) % 8 && inBlock == (len - pre) - (len - pre) % 8
    ensures pre < 8 && inBlock == 8 * m && pre + inBlock <= len < pre + inBlock + 8
    ensures forall k: nat :: (addr + (pre + 8 * k)) % 8 == 0
  {
    m := (len - pre) / 8;
  }

  /**
   CRC32C_Update_SSE42(state, buf, len), for a buffer at address addr: bytes up to
   an 8-byte boundary, aligned 8-byte blocks, and the bytes left over.
   The result is the byte-by-byte fold, so every byte is read once and in order.
   */
  method UpdateSse42(t: Residue, state0: Word, buf: seq<Byte>, addr: nat) returns (state: Word)
    requires |buf| >= 8
    ensures state == FeedAll(t, state0, buf)
  {
    var len := |buf|;
    var pre := (8 - addr) % 8;
    var remaining := len - pre;
    var inBlock := remaining - remaining % 8;
    ghost var m := Alignment(addr, len, pre, inBlock);
    ghost var k := 0;
    var i := 0;
    state := state0;
    while i < pre
      invariant i <= pre
      invariant state == FeedAll(t, state0, buf[..i])
    {
      state := Instruct(t, state0, state, buf, i, 1);
      i := i + 1;
    }
    while i < inBlock
      invariant i == pre + 8 * k && 0 <= k <= m
      invariant state == FeedAll(t, state0, buf[..i])
    {
      assert (addr + i) % 8 == 0 && i + 8 <= len;
      state := Instruct(t, state0, state, buf, i, 8);
      i, k := i + 8, k + 1;
    }
    assert len - i < 8;
    while i < len
      invariant i <= len
      invariant state == FeedAll(t, state0, buf[..i])
    {
      state := Instruct(t, state0, state, buf, i, 1);
      i := i + 1;
    }
    assert buf[..len] == buf;
  }

  /** Feed n bytes of the buffer with one instruction. */
  method Instruct(t: Residue, ghost state0: Word, state: Word, buf: seq<Byte>, i: nat, n: nat) returns (r: Word)
    requires i + n <= |buf|
    requires state == FeedAll(t, state0, buf[..i])
    ensures r == FeedAll(t, state0, buf[..i + n])
  {
    r := Crc32Instruction(t, state, buf[i..i + n]);
    InstructionFeeds(t, state, buf[i..i + n]);
    FeedNext(t, state0, buf, i, n);
  }

  // ----------------------------------------------------------------------- contexts

  /** Feeding 4 bytes at once is feeding them one by one. */
  lemma FeedFourBytes(t: Residue, s: Word, buf: seq<Byte>, i: nat)
    requires i + 4 <= |buf|
    ensures FeedAll(t, s, buf[..i + 4])
         == Feed(t, Feed(t, Feed(t, Feed(t, FeedAll(t, s, buf[..i]), buf[i]), buf[i + 1]), buf[i + 2]), buf[i + 3])
  {
    FeedNextByte(t, s, buf, i);
    FeedNextByte(t, s, buf, i + 1);
    FeedNextByte(t, s, buf, i + 2);
    FeedNextByte(t, s, buf, i + 3);
  }

  class Context {
    const tables: Tables
    var state: Word
    ghost var fed: seq<Byte>  // every byte fed since initialization

    ghost predicate Valid()
      reads this
    {
      tables.Valid() && state == Crc(tables.Tail(), fed)
    }

    /** CRC32C_Init(ctx) */
    constructor (tables: Tables)
      requires tables.Valid() && Value(tables.poly) == 0x1EDC6F41
      ensures Valid() && fed == [] && this.tables == tables && Value(state) == 0x82f63b78
    {
      var s := FirstState(tables.poly);
      this.tables, state, fed := tables, s, [];
    }

    /** CRC32C_Update(ctx, buf, len), the table-driven path. */
    method Update(buf: seq<Byte>)
      requires Valid()
      modifies this
      ensures Valid() && fed == old(fed) + buf
    {
      ghost var t, s0 := tables.Tail(), state;
      var pos := 0;
      while |buf| - pos >= 4
        invariant 0 <= pos <= |buf|
        invariant tables.Valid() && fed == old(fed)
        invariant state == FeedAll(t, s0, buf[..pos])
      {
        state := Lookup4(tables, state, buf[pos], buf[pos + 1], buf[pos + 2], buf[pos + 3]);
        FeedFourBytes(t, s0, buf, pos);
        pos := pos + 4;
      }
      while pos < |buf|
        invariant 0 <= pos <= |buf|
        invariant tables.Valid() && fed == old(fed)
        invariant state == FeedAll(t, s0, buf[..pos])
      {
        state := Lookup1(tables, state, buf[pos]);
        FeedNextByte(t, s0, buf, pos);
        pos := pos + 1;
      }
      assert buf[..|buf|] == buf;
      CrcFeed(t, fed, buf);
      fed := fed + buf;
    }

    /** CRC32C_Update(ctx, buf, len) where the processor has a CRC32C instruction and len >= 8. */
    method UpdateAccelerated(buf: seq<Byte>, addr: nat)
      requires Valid() && |buf| >= 8
      modifies this
      ensures Valid() && fed == old(fed) + buf
    {
      state := UpdateSse42(Reversed(tables.poly), state, buf, addr);
      CrcFeed(tables.Tail(), fed, buf);
      fed := fed + buf;
    }

    /** CRC32C_Final(cbuf, ctx): the state's bytes, least significant first. */
    method Final() returns (cbuf: seq<Byte>)
      requires Valid()
      ensures |cbuf| == 4
      ensures Divides(Monic(tables.Tail()), [true] + BufBits(fed + cbuf))
      ensures Value(tables.poly) == 0x1EDC6F41 ==> forall p: Poly :: IsCastagnoli(p) ==> Divides(p, [true] + BufBits(fed + cbuf))
      ensures forall c: seq<Byte> :: |c| == 4 && Divides(Monic(tables.Tail()), [true] + BufBits(fed + c)) ==> c == cbuf
    {
      cbuf := [ByteAt(state, 0), ByteAt(state, 1), ByteAt(state, 2), ByteAt(state, 3)];
      FourBytesOf(state);
      forall p: Poly | Value(tables.poly) == 0x1EDC6F41 && IsCastagnoli(p)
        ensures p == Monic(tables.Tail())
      {
        OnlyCastagnoli(tables.poly, p);
      }
      forall c: seq<Byte> | |c| == 4
        ensures Divides(Monic(tables.Tail()), [true] + BufBits(fed + c)) <==> c == cbuf
      {
        CheckBytes(tables.Tail(), fed, c);
        if BufBits(c) == state {
          FourBytesInjective(c, cbuf);
        }
      }
    }
  }

  /** The statement of the byte loop. */
  method Lookup1(tables: Tables, s: Word, b: Byte) returns (r: Word)
    requires tables.Valid()
    ensures r == Feed(tables.Tail(), s, b)
  {
    LookupIsEntry(tables.Tail(), 0, XorByte(LowByte(s), b));
    r := Xor(Shr(s, 8), tables.t0[Value(XorByte(LowByte(s), b))]);
    OneByteStep(tables.Tail(), s, b);
  }

  /** The statement of the 4-byte loop. */
  method Lookup4(tables: Tables, s: Word, b0: Byte, b1: Byte, b2: Byte, b3: Byte) returns (r: Word)
    requires tables.Valid()
    ensures r == Feed(tables.Tail(), Feed(tables.Tail(), Feed(tables.Tail(), Feed(tables.Tail(), s, b0), b1), b2), b3)
  {
    var i0, i1, i2, i3 := XorByte(ByteAt(s, 0), b0), XorByte(ByteAt(s, 1), b1), XorByte(ByteAt(s, 2), b2), XorByte(ByteAt(s, 3), b3);
    LookupIsEntry(tables.Tail(), 0, i3);
    LookupIsEntry(tables.Tail(), 1, i2);
    LookupIsEntry(tables.Tail(), 2, i1);
    LookupIsEntry(tables.Tail(), 3, i0);
    r := Xor(Xor(Xor(tables.t0[Value(i3)], tables.t1[Value(i2)]), tables.t2[Value(i1)]), tables.t3[Value(i0)]);
    FourByteStep(tables.Tail(), s, b0, b1, b2, b3);
  }

  // ----------------------------------------------------------------- initial and final state

  /** The initial state is the register of the implicit leading 1 bit, and is T[0][0x80]. */
  lemma InitialState()
    ensures LeadingOne() == Crc(Reversed(CastagnoliWord()), [])
    ensures LeadingOne() == Entry(Reversed(CastagnoliWord()), 0, 0x80)
  {
    MirrorConstants();
    CrcOfNothing(LeadingOne());
  }

  /** The constant that CRC32C_Init stores. */
  method FirstState(ghost poly: Word) returns (s: Word)
    requires Value(poly) == 0x1EDC6F41
    ensures s == Crc(Reversed(poly), []) && Value(s) == 0x82f63b78
  {
    InitialState();
    ConstantValues();
    SameValue(poly, CastagnoliWord(), |poly|);
    s := LeadingOne();
  }

  lemma HighBit()
    ensures NatBits(0x80, 8) == Zeros(7) + [true]
  {
    assert NatBits(0x80, 8) == [false, false, false, false, false, false, false, true];
  }

  lemma CrcOfNothing(t: Residue)
    ensures Crc(t, []) == t && Entry(t, 0, 0x80) == t
  {
    TableEquation(t, 0, 0x80);
    HighBit();
    assert NatBits(0x80, 8) + Zeros(32) == Zeros(7) + ([true] + Zeros(32));
    RemPadded(t, 7, [true] + Zeros(32));
    assert [true] + BufBits([]) == [true];
    RemTimesPower(t, [true], 32);
    RemOne(t);
    TimesXPowOne(t);
  }

  lemma BufBitsConcat(a: seq<Byte>, b: seq<Byte>)
    ensures BufBits(a + b) == BufBits(a) + BufBits(b)
  {
    if b == [] {
      assert a + b == a;
    } else {
      BufBitsConcat(a, b[..|b| - 1]);
      assert (a + b)[..|a + b| - 1] == a + b[..|b| - 1];
    }
  }

  lemma FourBytesOf(s: Word)
    ensures BufBits([ByteAt(s, 0), ByteAt(s, 1), ByteAt(s, 2), ByteAt(s, 3)]) == s
  {
    var c := [ByteAt(s, 0), ByteAt(s, 1), ByteAt(s, 2), ByteAt(s, 3)];
    BufBitsOfFour(c);
  }

  function Concat4(a: Poly, b: Poly, c: Poly, d: Poly): Poly {
    a + b + c + d
  }

  lemma BufBitsOfFour(c: seq<Byte>)
    requires |c| == 4
    ensures BufBits(c) == Concat4(c[0], c[1], c[2], c[3])
  {
    assert c[..3][..2] == c[..2] && c[..2][..1] == c[..1] && c[..1][..0] == [];
    var p0: Poly, p1: Poly, p2: Poly := c[0], c[1], c[2];
    assert BufBits(c[..1]) == p0;
    assert BufBits(c[..2]) == p0 + p1;
    assert BufBits(c[..3]) == p0 + p1 + p2;
  }

  lemma FourBytesInjective(c: seq<Byte>, d: seq<Byte>)
    requires |c| == 4 && |d| == 4 && BufBits(c) == BufBits(d)
    ensures c == d
  {
    BufBitsOfFour(c);
    BufBitsOfFour(d);
    assert c[0] == BufBits(c)[..8] == d[0];
    assert c[1] == BufBits(c)[8..16] == d[1];
    assert c[2] == BufBits(c)[16..24] == d[2];
    assert c[3] == BufBits(c)[24..] == d[3];
  }

  /** Four check bytes make the message a multiple of the polynomial exactly when they are the register. */
  lemma CheckBytes(t: Residue, fed: seq<Byte>, c: seq<Byte>)
    requires |c| == 4
    ensures Divides(Monic(t), [true] + BufBits(fed + c)) <==> BufBits(c) == Crc(t, fed)
  {
    var m, w := [true] + BufBits(fed), BufBits(c);
    BufBitsConcat(fed, c);
    assert [true] + BufBits(fed + c) == m + w;
    RemFromConcat(t, Zeros(32), m, w);
    RemFromShort(t, Rem(t, m), w);
    RemTimesPower(t, m, 32);
    assert Rem(t, m + w) == Add(Crc(t, fed), w) by { assert Zeros(0) + w == w; }
    DividesIffRemZero(t, m + w);
    SumIsZero(Crc(t, fed), w);
  }

  lemma SumIsZero(a: Residue, b: Residue)
    ensures Add(a, b) == Zeros(32) <==> a == b
  {
    if Add(a, b) == Zeros(32) {
      forall i | 0 <= i < 32
        ensures a[i] == b[i]
      {
        assert !Add(a, b)[i];
      }
    }
  }
}
