/**
 The tables of CRC32C and the arithmetic of its two loops (alg/crc32c.c).

 The code keeps its remainders reflected: read from its least significant bit, a
 register lists the coefficients of a remainder highest power first.  A register
 is therefore itself the coefficient list that module Gf2 works with.
 */
module CrcTables {
  import opened Gf2
  import opened Words

  // ------------------------------------------------------------- bit reversal

  function Reversed(w: Word): Word {
    seq(32, i requires 0 <= i < 32 => w[31 - i])
  }

  /** The group widths that reverse() exchanges, in turn. */
  type Width = k: nat | k == 16 || k == 8 || k == 4 || k == 2 || k == 1 witness 1

  /** Index i lies in an odd-numbered group of k bits. */
  predicate Odd(i: nat, k: Width) {
    if k == 16 then i / 16 % 2 == 1
    else if k == 8 then i / 8 % 2 == 1
    else if k == 4 then i / 4 % 2 == 1
    else if k == 2 then i / 2 % 2 == 1
    else i % 2 == 1
  }

  /** The mask with ones in every second group of k bits: 0xffff0000 for k == 16, 0xaaaaaaaa for k == 1. */
  function Stripes(k: Width): Word {
    seq(32, i requires 0 <= i < 32 => Odd(i, k))
  }

  function Not(w: Word): Word {
    seq(32, i requires 0 <= i < 32 => !w[i])
  }

  /** One line of reverse(): exchange neighbouring groups of k bits. */
  function SwapGroups(x: Word, k: Width): Word {
    Or(Shr(And(x, Stripes(k)), k), Shl(And(x, Not(Stripes(k))), k))
  }

  function Reverse(x: Word): Word {
    SwapGroups(SwapGroups(SwapGroups(SwapGroups(SwapGroups(x, 16), 8), 4), 2), 1)
  }

  /** The index that line k of reverse() brings to index i. */
  function Partner(i: nat, k: Width): (j: nat)
    requires i < 32
    ensures j < 32
  {
    EachIndex(i);
    if Odd(i, k) then i - k else i + k
  }

  lemma EachIndex(i: nat)
    requires i < 32
    ensures i == 0 || i == 1 || i == 2 || i == 3 || i == 4 || i == 5 || i == 6 || i == 7
         || i == 8 || i == 9 || i == 10 || i == 11 || i == 12 || i == 13 || i == 14 || i == 15
         || i == 16 || i == 17 || i == 18 || i == 19 || i == 20 || i == 21 || i == 22 || i == 23
         || i == 24 || i == 25 || i == 26 || i == 27 || i == 28 || i == 29 || i == 30 || i == 31
  {
  }

  /** Neighbouring groups have different parity. */
  lemma NextGroup(i: nat, k: Width)
    requires i + k < 32
    ensures Odd(i + k, k) != Odd(i, k)
  {
    EachIndex(i);
  }

  lemma PartnerChain(i: nat)
    requires i < 32
    ensures Partner(Partner(Partner(Partner(Partner(i, 1), 2), 4), 8), 16) == 31 - i
  {
    EachIndex(i);
  }

  lemma GroupsUp(x: Word, k: Width, i: nat)
    requires i < 32
    ensures Shr(And(x, Stripes(k)), k)[i] == (i + k < 32 && Odd(i + k, k) && x[i + k])
  {
  }

  lemma GroupsDown(x: Word, k: Width, i: nat)
    requires i < 32
    ensures Shl(And(x, Not(Stripes(k))), k)[i] == (i >= k && !Odd(i - k, k) && x[i - k])
  {
  }

  lemma SwapGroupsAt(x: Word, k: Width, i: nat)
    requires i < 32
    ensures SwapGroups(x, k)[i] == x[Partner(i, k)]
  {
    GroupsUp(x, k, i);
    GroupsDown(x, k, i);
    if i + k < 32 {
      NextGroup(i, k);
    }
    if i >= k {
      NextGroup(i - k, k);
    }
    assert Partner(i, k) < 32;
  }

  /** reverse() reverses the bit order. */
  lemma ReverseCorrect(x: Word)
    ensures Reverse(x) == Reversed(x)
  {
    forall i | 0 <= i < 32
      ensures Reverse(x)[i] == Reversed(x)[i]
    {
      var x16 := SwapGroups(x, 16);
      var x8 := SwapGroups(x16, 8);
      var x4 := SwapGroups(x8, 4);
      var x2 := SwapGroups(x4, 2);
      SwapGroupsAt(x2, 1, i);
      SwapGroupsAt(x4, 2, Partner(i, 1));
      SwapGroupsAt(x8, 4, Partner(Partner(i, 1), 2));
      SwapGroupsAt(x16, 8, Partner(Partner(Partner(i, 1), 2), 4));
      SwapGroupsAt(x, 16, Partner(Partner(Partner(Partner(i, 1), 2), 4), 8));
      PartnerChain(i);
    }
  }

  // ------------------------------------------------------------------ times256

  /** Shifting an unreflected register left, with the feedback p, multiplies by x. */
  lemma ShiftLeftIsTimesX(r: Word, p: Word)
    ensures r[31] ==> Reversed(Xor(Shl(r, 1), p)) == TimesX(Reversed(p), Reversed(r))
    ensures !r[31] ==> Reversed(Shl(r, 1)) == TimesX(Reversed(p), Reversed(r))
  {
    assert Reversed(Shl(r, 1)) == Reversed(r)[1..] + [false];
    assert Reversed(Xor(Shl(r, 1), p)) == Xor(Reversed(Shl(r, 1)), Reversed(p));
  }

  /** times256(r) for the feedback constant p. */
  method Times256(r0: Word, p: Word) returns (r: Word)
    ensures Reversed(r) == TimesXPow(Reversed(p), Reversed(r0), 8)
  {
    r := r0;
    for k := 0 to 8
      invariant Reversed(r) == TimesXPow(Reversed(p), Reversed(r0), k)
    {
      ShiftLeftIsTimesX(r, p);
      if r[31] {
        r := Xor(Shl(r, 1), p);
      } else {
        r := Shl(r, 1);
      }
    }
  }

  lemma ReversedTwice(w: Word)
    ensures Reversed(Reversed(w)) == w
  {
  }

  // ------------------------------------------------------------------ the tables

  /** Entry i of table k, as the register arithmetic produces it. */
  function Entry(t: Residue, k: nat, i: nat): Word {
    TimesXPow(t, U32(i), 8 * (k + 1))
  }

  lemma ShortValue(t: Residue, m: Residue)
    ensures Rem(t, m) == m
  {
    RemFromShort(t, Zeros(32), m);
    TimesXPowZero(t, 32);
    assert Add(Zeros(32), Zeros(0) + m) == m;
  }

  lemma {:induction false} NatBitsSplit(v: nat, m: nat, n: nat)
    requires v < Pow2(m)
    ensures NatBits(v, m + n) == NatBits(v, m) + Zeros(n)
  {
    if m == 0 {
      if n > 0 {
        NatBitsSplit(v, 0, n - 1);
        assert Zeros(n) == [false] + Zeros(n - 1);
      }
    } else {
      NatBitsSplit(v / 2, m - 1, n);
    }
  }

  /** T[k][i] is reverse8(i) x^(32+8k) modulo the polynomial, reflected. */
  lemma TableEquation(t: Residue, k: nat, i: nat)
    requires i < 256
    ensures Entry(t, k, i) == Rem(t, NatBits(i, 8) + Zeros(32 + 8 * k))
  {
    NatBitsSplit(i, 8, 24);
    var m: Residue, n := U32(i), 8 * (k + 1);
    ShortValue(t, m);
    RemFromConcat(t, Zeros(32), m, Zeros(n));
    RemFromZeros(t, m, n);
    assert m + Zeros(n) == NatBits(i, 8) + Zeros(32 + 8 * k);
  }

  /** The first n entries of table k. */
  ghost function Table(t: Residue, k: nat, n: nat): (s: seq<Word>)
    ensures |s| == n
  {
    if n == 0 then [] else Table(t, k, n - 1) + [Entry(t, k, n - 1)]
  }

  lemma {:induction false} TableAt(t: Residue, k: nat, n: nat, i: nat)
    requires i < n
    ensures Table(t, k, n)[i] == Entry(t, k, i)
  {
    if i < n - 1 {
      TableAt(t, k, n - 1, i);
    }
  }

  /** Four rounds of times256() give the four entries of index i. */
  lemma EntryChain(t: Residue, i: nat, r1: Word, r2: Word, r3: Word, r4: Word)
    requires Reversed(r1) == TimesXPow(t, Reversed(Reverse(U32(i))), 8)
    requires Reversed(r2) == TimesXPow(t, Reversed(r1), 8)
    requires Reversed(r3) == TimesXPow(t, Reversed(r2), 8)
    requires Reversed(r4) == TimesXPow(t, Reversed(r3), 8)
    ensures Reverse(r1) == Entry(t, 0, i) && Reverse(r2) == Entry(t, 1, i)
    ensures Reverse(r3) == Entry(t, 2, i) && Reverse(r4) == Entry(t, 3, i)
  {
    ReverseCorrect(U32(i));
    ReversedTwice(U32(i));
    ReverseCorrect(r1);
    ReverseCorrect(r2);
    ReverseCorrect(r3);
    ReverseCorrect(r4);
    TimesXPowSum(t, U32(i), 8, 8);
    TimesXPowSum(t, U32(i), 16, 8);
    TimesXPowSum(t, U32(i), 24, 8);
  }

  /** The body of the loop of init(): the four entries of index i. */
  method Entries(p: Word, i: nat) returns (e0: Word, e1: Word, e2: Word, e3: Word)
    ensures e0 == Entry(Reversed(p), 0, i) && e1 == Entry(Reversed(p), 1, i)
    ensures e2 == Entry(Reversed(p), 2, i) && e3 == Entry(Reversed(p), 3, i)
  {
    var r1 := Times256(Reverse(U32(i)), p);
    var r2 := Times256(r1, p);
    var r3 := Times256(r2, p);
    var r4 := Times256(r3, p);
    EntryChain(Reversed(p), i, r1, r2, r3, r4);
    e0, e1, e2, e3 := Reverse(r1), Reverse(r2), Reverse(r3), Reverse(r4);
  }

  /** The static tables T0..T3 for the feedback constant poly, filled once and never changed. */
  class Tables {
    const poly: Word
    const t0: seq<Word>
    const t1: seq<Word>
    const t2: seq<Word>
    const t3: seq<Word>

    ghost function Tail(): Residue {
      Reversed(poly)
    }

    ghost predicate Valid() {
      && t0 == Table(Tail(), 0, 256) && t1 == Table(Tail(), 1, 256)
      && t2 == Table(Tail(), 2, 256) && t3 == Table(Tail(), 3, 256)
    }

    /** init(): fill in the four tables. */
    constructor (p: Word)
      ensures Valid() && poly == p
    {
      var s0: seq<Word>, s1: seq<Word>, s2: seq<Word>, s3: seq<Word> := [], [], [], [];
      for i := 0 to 256
        invariant s0 == Table(Reversed(p), 0, i) && s1 == Table(Reversed(p), 1, i)
        invariant s2 == Table(Reversed(p), 2, i) && s3 == Table(Reversed(p), 3, i)
      {
        var e0, e1, e2, e3 := Entries(p, i);
        s0, s1, s2, s3 := s0 + [e0], s1 + [e1], s2 + [e2], s3 + [e3];
      }
      poly, t0, t1, t2, t3 := p, s0, s1, s2, s3;
    }
  }

  // ------------------------------------------------------------- reading a buffer

  /** The polynomial read from a buffer: bytes in address order, least significant bit first. */
  function BufBits(buf: seq<Byte>): (m: Poly)
    ensures |m| == 8 * |buf|
  {
    if buf == [] then [] else BufBits(buf[..|buf| - 1]) + buf[|buf| - 1]
  }

  /** The register that belongs to the bytes fed so far: the remainder of 1[buf]...[buf] x^32. */
  function Crc(t: Residue, buf: seq<Byte>): Word {
    Rem(t, [true] + BufBits(buf) + Zeros(32))
  }

  /** One byte fed to a register. */
  function Feed(t: Residue, s: Word, b: Byte): Word {
    TimesXPow(t, Xor(s, Widen(b)), 8)
  }

  function FeedAll(t: Residue, s: Word, buf: seq<Byte>): Word {
    if buf == [] then s else Feed(t, FeedAll(t, s, buf[..|buf| - 1]), buf[|buf| - 1])
  }

  /** A byte at bit offset 8j of a register arrives at its low end after j bytes. */
  lemma Arrive(t: Residue, b: Byte, j: nat)
    requires j <= 3
    ensures TimesXPow(t, Zeros(8 * j) + b + Zeros(24 - 8 * j), 8 * j) == Widen(b)
  {
    var w: Residue := Zeros(8 * j) + b + Zeros(24 - 8 * j);
    assert w[..8 * j] == Zeros(8 * j);
    TimesXPowShift(t, w, 8 * j);
    assert w[8 * j..] + Zeros(8 * j) == Widen(b);
  }

  lemma CarryByte(t: Residue, r: Residue, b: Byte)
    ensures TimesXPow(t, Add(TimesXPow(t, r, 8), Zeros(24) + b), 32)
         == TimesXPow(t, Add(TimesXPow(t, r, 32), Widen(b)), 8)
  {
    var low: Residue := Zeros(24) + b;
    TimesXPowLinear(t, TimesXPow(t, r, 8), low, 32);
    TimesXPowSum(t, r, 8, 32);
    TimesXPowSum(t, r, 32, 8);
    TimesXPowSum(t, low, 24, 8);
    assert low == Zeros(8 * 3) + b + Zeros(24 - 8 * 3);
    Arrive(t, b, 3);
    TimesXPowLinear(t, TimesXPow(t, r, 32), Widen(b), 8);
  }

  /** The remainder of m x^n, from that of m. */
  lemma RemTimesPower(t: Residue, m: Poly, n: nat)
    ensures Rem(t, m + Zeros(n)) == TimesXPow(t, Rem(t, m), n)
  {
    RemFromConcat(t, Zeros(32), m, Zeros(n));
    RemFromZeros(t, Rem(t, m), n);
  }

  lemma RemByte(t: Residue, m: Poly, b: Byte)
    ensures Rem(t, m + b + Zeros(32)) == Feed(t, Rem(t, m + Zeros(32)), b)
  {
    RemTimesPower(t, m, 32);
    RemTimesPower(t, m + b, 32);
    RemFromConcat(t, Zeros(32), m, b);
    RemFromShort(t, Rem(t, m), b);
    CarryByte(t, Rem(t, m), b);
  }

  /** Appending a byte to the message feeds it to the register. */
  lemma CrcByte(t: Residue, buf: seq<Byte>, b: Byte)
    ensures Crc(t, buf + [b]) == Feed(t, Crc(t, buf), b)
  {
    var m := [true] + BufBits(buf);
    assert (buf + [b])[..|buf|] == buf;
    assert [true] + BufBits(buf + [b]) == m + b;
    RemByte(t, m, b);
  }

  lemma {:induction false} CrcFeed(t: Residue, fed: seq<Byte>, buf: seq<Byte>)
    ensures FeedAll(t, Crc(t, fed), buf) == Crc(t, fed + buf)
  {
    if buf == [] {
      assert fed + buf == fed;
    } else {
      var n := |buf| - 1;
      CrcFeed(t, fed, buf[..n]);
      CrcByte(t, fed + buf[..n], buf[n]);
      assert fed + buf == fed + buf[..n] + [buf[n]];
    }
  }

  lemma {:induction false} FeedAllConcat(t: Residue, s: Word, a: seq<Byte>, b: seq<Byte>)
    ensures FeedAll(t, s, a + b) == FeedAll(t, FeedAll(t, s, a), b)
  {
    if b == [] {
      assert a + b == a;
    } else {
      FeedAllConcat(t, s, a, b[..|b| - 1]);
      assert (a + b)[..|a + b| - 1] == a + b[..|b| - 1];
    }
  }

  // -------------------------------------------------------------- the table loops

  /** The table entry a byte selects. */
  function Lookup(t: Residue, k: nat, b: Byte): Word {
    TimesXPow(t, Widen(b), 8 * (k + 1))
  }

  lemma LookupIsEntry(t: Residue, k: nat, b: Byte)
    ensures Value(b) < 256 && Table(t, k, 256)[Value(b)] == Lookup(t, k, b)
  {
    ByteValueBound(b);
    TableAt(t, k, 256, Value(b));
    WidenValue(b);
  }

  /** The byte loop: shifting and one table entry feed a byte. */
  lemma OneByteStep(t: Residue, s: Word, b: Byte)
    ensures Xor(Shr(s, 8), Lookup(t, 0, XorByte(LowByte(s), b))) == Feed(t, s, b)
  {
    var high: Residue := Zeros(8) + s[8..];
    var low := Widen(XorByte(LowByte(s), b));
    assert Xor(s, Widen(b)) == Add(high, low);
    TimesXPowLinear(t, high, low, 8);
    assert high[..8] == Zeros(8);
    TimesXPowShift(t, high, 8);
    assert high[8..] + Zeros(8) == Shr(s, 8);
  }

  /** Byte j of a register. */
  function ByteAt(s: Word, j: nat): Byte
    requires j <= 3
  {
    s[8 * j..8 * j + 8]
  }

  /** Byte b placed at bit offset 8j. */
  function Place(b: Byte, j: nat): Word
    requires j <= 3
  {
    Zeros(8 * j) + b + Zeros(24 - 8 * j)
  }

  /** After 32 shifts, byte j of a register has become its entry in table 3-j. */
  lemma PlacedLookup(t: Residue, b: Byte, j: nat)
    requires j <= 3
    ensures TimesXPow(t, Place(b, j), 32) == Lookup(t, 3 - j, b)
  {
    Arrive(t, b, j);
    TimesXPowSum(t, Place(b, j), 8 * j, 32 - 8 * j);
  }

  /** A byte fed later can be added to the register up front. */
  lemma FeedAhead(t: Residue, w: Word, b: Byte, j: nat)
    requires j <= 3
    ensures Feed(t, TimesXPow(t, w, 8 * j), b) == TimesXPow(t, Xor(w, Place(b, j)), 8 * (j + 1))
  {
    Arrive(t, b, j);
    TimesXPowLinear(t, w, Place(b, j), 8 * j);
    TimesXPowSum(t, Xor(w, Place(b, j)), 8 * j, 8);
  }

  lemma SumOfBytes(w: Word)
    ensures w == Xor(Xor(Xor(Place(ByteAt(w, 3), 3), Place(ByteAt(w, 2), 2)), Place(ByteAt(w, 1), 1)), Place(ByteAt(w, 0), 0))
  {
  }

  lemma TimesXPowOfBytes(t: Residue, w: Word)
    ensures TimesXPow(t, w, 32)
         == Xor(Xor(Xor(Lookup(t, 0, ByteAt(w, 3)), Lookup(t, 1, ByteAt(w, 2))), Lookup(t, 2, ByteAt(w, 1))), Lookup(t, 3, ByteAt(w, 0)))
  {
    var p0, p1, p2, p3 := Place(ByteAt(w, 0), 0), Place(ByteAt(w, 1), 1), Place(ByteAt(w, 2), 2), Place(ByteAt(w, 3), 3);
    SumOfBytes(w);
    TimesXPowLinear(t, Xor(Xor(p3, p2), p1), p0, 32);
    TimesXPowLinear(t, Xor(p3, p2), p1, 32);
    TimesXPowLinear(t, p3, p2, 32);
    PlacedLookup(t, ByteAt(w, 0), 0);
    PlacedLookup(t, ByteAt(w, 1), 1);
    PlacedLookup(t, ByteAt(w, 2), 2);
    PlacedLookup(t, ByteAt(w, 3), 3);
  }

  lemma FeedFour(t: Residue, s: Word, b0: Byte, b1: Byte, b2: Byte, b3: Byte)
    ensures Feed(t, Feed(t, Feed(t, Feed(t, s, b0), b1), b2), b3)
         == TimesXPow(t, Xor(Xor(Xor(Xor(s, Place(b0, 0)), Place(b1, 1)), Place(b2, 2)), Place(b3, 3)), 32)
  {
    var w0 := Xor(s, Place(b0, 0));
    var w1 := Xor(w0, Place(b1, 1));
    var w2 := Xor(w1, Place(b2, 2));
    FeedAhead(t, s, b0, 0);
    FeedAhead(t, w0, b1, 1);
    FeedAhead(t, w1, b2, 2);
    FeedAhead(t, w2, b3, 3);
  }

  lemma PlacedBytes(s: Word, b0: Byte, b1: Byte, b2: Byte, b3: Byte)
    ensures var w := Xor(Xor(Xor(Xor(s, Place(b0, 0)), Place(b1, 1)), Place(b2, 2)), Place(b3, 3));
      && ByteAt(w, 0) == XorByte(ByteAt(s, 0), b0) && ByteAt(w, 1) == XorByte(ByteAt(s, 1), b1)
      && ByteAt(w, 2) == XorByte(ByteAt(s, 2), b2) && ByteAt(w, 3) == XorByte(ByteAt(s, 3), b3)
  {
    forall i | 0 <= i < 8
      ensures var w := Xor(Xor(Xor(Xor(s, Place(b0, 0)), Place(b1, 1)), Place(b2, 2)), Place(b3, 3));
        && w[i] == (s[i] != b0[i]) && w[i + 8] == (s[i + 8] != b1[i])
        && w[i + 16] == (s[i + 16] != b2[i]) && w[i + 24] == (s[i + 24] != b3[i])
    {
    }
  }

  /** The block loop: four table entries feed four bytes. */
  lemma FourByteStep(t: Residue, s: Word, b0: Byte, b1: Byte, b2: Byte, b3: Byte)
    ensures Xor(Xor(Xor(Lookup(t, 0, XorByte(ByteAt(s, 3), b3)), Lookup(t, 1, XorByte(ByteAt(s, 2), b2))),
                    Lookup(t, 2, XorByte(ByteAt(s, 1), b1))), Lookup(t, 3, XorByte(ByteAt(s, 0), b0)))
         == Feed(t, Feed(t, Feed(t, Feed(t, s, b0), b1), b2), b3)
  {
    FeedFour(t, s, b0, b1, b2, b3);
    PlacedBytes(s, b0, b1, b2, b3);
    TimesXPowOfBytes(t, Xor(Xor(Xor(Xor(s, Place(b0, 0)), Place(b1, 1)), Place(b2, 2)), Place(b3, 3)));
  }
}
